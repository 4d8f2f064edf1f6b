/**
 * The CloudWatch Logs log-group-name check: a length bound on the UTF-8 byte
 * length, then the anchored character class `^[[:alpha:]\d_/.#-]+$`.
 */
module Regexes {
  import opened Wrappers
  import opened Text

  const MinLength: nat := 1
  const MaxLength: nat := 512

  /** One character of the class: an ASCII letter, an ASCII digit, `_`, `/`, `.`, `#` or `-`. */
  predicate IsNameChar(c: char) {
    ('a' <= c <= 'z') || ('A' <= c <= 'Z') || ('0' <= c <= '9')
    || c == '_' || c == '/' || c == '.' || c == '#' || c == '-'
  }

  /** Every character of `s` belongs to the class. */
  function AllNameChars(s: string): (r: bool)
    ensures r <==> forall i :: 0 <= i < |s| ==> IsNameChar(s[i])
  {
    if s == [] then true
    else
      IsNameChar(s[0]) && AllNameChars(s[1..])
  }

  /** The anchored pattern: one or more characters, all of the class. */
  predicate MatchesPattern(s: string) {
    |s| >= 1 && AllNameChars(s)
  }

  lemma {:induction false} ByteLengthAtLeastLength(s: string)
    ensures ByteLength(s) >= |s|
    ensures ByteLength(s) == 0 <==> s == []
    decreases |s|
  {
    if s != [] {
      ByteLengthAtLeastLength(s[1..]);
    }
  }

  /**
   * `valid_cwl_log_group_name`: a byte length outside [1, 512] is rejected
   * before the pattern is tried; otherwise the pattern decides. An accepted
   * name is pure ASCII, so its byte length is its character count.
   */
  function ValidCwlLogGroupName(name: string): (r: bool)
    ensures r <==> MinLength <= ByteLength(name) <= MaxLength
                   && forall i :: 0 <= i < |name| ==> IsNameChar(name[i])
    ensures r ==> ByteLength(name) == |name|
  {
    ByteLengthAtLeastLength(name);
    if ByteLength(name) < MinLength || ByteLength(name) > MaxLength then false
    else
      var matches := MatchesPattern(name);
      if matches then AsciiByteLength(name); true else false
  }

  /** A name longer than 512 characters is rejected whatever it is made of. */
  lemma TooLongRejected(name: string)
    requires |name| > MaxLength
    ensures !ValidCwlLogGroupName(name)
  {
    ByteLengthAtLeastLength(name);
  }

  /** One character outside the class is enough to reject a name. */
  lemma BadCharRejected(name: string, i: nat)
    requires i < |name| && !IsNameChar(name[i])
    ensures !ValidCwlLogGroupName(name)
  {
  }

  /** `clap_validate_cwl_log_group_name`: Ok exactly for valid names; otherwise the message names the input. */
  function ClapValidateCwlLogGroupName(name: string): (r: Result<(), string>)
    ensures r.Success? <==> ValidCwlLogGroupName(name)
    ensures r.Failure? ==> r.error == name + " is not a valid CloudWatch Logs log group name"
  {
    if ValidCwlLogGroupName(name) then Success(())
    else Failure(name + " is not a valid CloudWatch Logs log group name")
  }

  // ---------------------------------------------------------------------------
  // The unit tests of the validator

  /** The name `Log-Group-03-/.#`, written as two pieces. */
  lemma ValidNameMatches()
    ensures ValidCwlLogGroupName("Log-Group-" + "03-/.#")
    ensures ClapValidateCwlLogGroupName("Log-Group-" + "03-/.#").Success?
  {
    var name := "Log-Group-" + "03-/.#";
    assert forall i :: 0 <= i < |name| ==> IsNameChar(name[i]) && name[i] as int < 0x80;
    AsciiByteLength(name);
  }

  lemma PlusDoesNotMatch()
    ensures !ValidCwlLogGroupName("log-group+")
    ensures ClapValidateCwlLogGroupName("log-group+").Failure?
  {
    BadCharRejected("log-group+", 9);
  }

  lemma TooLongDoesNotMatch()
    ensures !ValidCwlLogGroupName(seq(1000, _ => 'a'))
  {
    TooLongRejected(seq(1000, _ => 'a'));
  }
}
