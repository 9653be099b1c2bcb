/**
 * The record schema of the converter: the five column names a header must
 * carry, the Name and Record values written to the JSON output, and the
 * field rules that an accepted record satisfies.
 *
 * Strings are byte strings: one char stands for one byte, as Go's len counts.
 */
module Schema {

  /** Header column names (main.go:23-34). */
  const ID: string := "INTERNAL_ID"
  const FName: string := "FIRST_NAME"
  const MName: string := "MIDDLE_NAME"
  const LName: string := "LAST_NAME"
  const Phone: string := "PHONE_NUM"

  /** An internal id is read from a field of exactly this many bytes. */
  const IdWidth: nat := 8
  /** No name part may be longer than this many bytes. */
  const MaxNameLength: nat := 15

  /** A person's name; Middle may be empty (and is then omitted from the JSON). */
  datatype Name = Name(first: string, middle: string, last: string)

  /** The output unit: one accepted row. It carries no line number. */
  datatype Record = Record(internalId: int, name: Name, phone: string)

  /** The ASCII digits, which is what `\d` matches in Go's regexp syntax. */
  predicate IsDigit(c: char) {
    '0' <= c <= '9'
  }

  predicate AllDigits(s: string) {
    forall i :: 0 <= i < |s| ==> IsDigit(s[i])
  }

  /**
   * The phone pattern `^\d{3}-\d{3}-\d{4}$` (main.go:61), written as the
   * concatenation the pattern describes: three digits, a dash, three digits,
   * a dash, four digits, and nothing before or after.
   */
  predicate PhoneMatches(s: string) {
    |s| == 12
    && AllDigits(s[..3]) && s[3] == '-'
    && AllDigits(s[4..7]) && s[7] == '-'
    && AllDigits(s[8..])
  }

  /** What every record in the JSON output satisfies. */
  predicate WellFormed(r: Record) {
    && 0 <= r.internalId < 100000000
    && 0 < |r.name.first| <= MaxNameLength
    && |r.name.middle| <= MaxNameLength
    && 0 < |r.name.last| <= MaxNameLength
    && PhoneMatches(r.phone)
  }

  /** The pattern read position by position: dashes at 3 and 7, digits elsewhere. */
  lemma PhoneMatchesAt(s: string)
    ensures PhoneMatches(s) <==>
      |s| == 12 && forall i :: 0 <= i < 12 ==> if i == 3 || i == 7 then s[i] == '-' else IsDigit(s[i])
  {
    if |s| == 12 {
      if PhoneMatches(s) {
        forall i | 0 <= i < 12
          ensures if i == 3 || i == 7 then s[i] == '-' else IsDigit(s[i])
        {
          if i < 3 {
            assert s[..3][i] == s[i];
          } else if 3 < i < 7 {
            assert s[4..7][i - 4] == s[i];
          } else if 7 < i {
            assert s[8..][i - 8] == s[i];
          }
        }
      }
    }
  }

  /** The examples the converter is expected to accept and reject. */
  lemma PhoneExamples()
    ensures PhoneMatches("555-123-4567")
    ensures !PhoneMatches("5551234567")
    ensures !PhoneMatches("")
    ensures !PhoneMatches("555-123-456a")
    ensures !PhoneMatches("555-123-4567\n")
  {
    PhoneMatchesAt("555-123-4567");
    PhoneMatchesAt("555-123-456a");
    assert !IsDigit("555-123-456a"[11]);
  }
}
