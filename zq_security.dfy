/**
 * `zqutils/src/security.rs`. Its `Charset` and `Charset::expand` are the same
 * byte strings as in `zutils/src/security.rs` and are shared with `Security`;
 * its `generate_password` is the same loop, and `generate_id` is new.
 */
module ZqSecurity {
  import opened Wrappers
  import opened Security

  const Alpha: string := Lower
  const IdCharset: string := Digits + Lower

  /** `generate_password`: `length` characters drawn from the charset; it never fails. */
  method GeneratePassword(length: nat, charset: Charset, rng: Rng) returns (r: Result<string, string>)
    modifies rng
    ensures r.Ok? && |r.value| == length
    ensures forall k :: 0 <= k < length ==> r.value[k] in Expand(charset)
    ensures forall k :: 0 <= k < length ==> r.value[k] == Expand(charset)[rng.Index(old(rng.drawn) + k, |Expand(charset)|)]
    ensures rng.drawn == old(rng.drawn) + length
  {
    var allowed := Expand(charset);
    var password := "";
    for k := 0 to length
      invariant |password| == k && rng.drawn == old(rng.drawn) + k
      invariant forall j :: 0 <= j < k ==> password[j] == allowed[rng.Index(old(rng.drawn) + j, |allowed|)]
    {
      var idx := rng.GenRange(|allowed|);
      password := password + [allowed[idx]];
    }
    return Ok(password);
  }

  /**
   * `generate_id`: one lower-case letter, then `len - 1` characters from
   * `0-9a-z`; at least one character even when `len` is 0. It never fails.
   */
  method GenerateId(rng: Rng, len: nat) returns (r: Result<string, string>)
    modifies rng
    ensures r.Ok?
    ensures |r.value| == if len == 0 then 1 else len
    ensures IsLower(r.value[0])
    ensures forall k :: 1 <= k < |r.value| ==> IsDigit(r.value[k]) || IsLower(r.value[k])
    ensures r.value[0] == Alpha[rng.Index(old(rng.drawn), |Alpha|)]
    ensures forall k :: 1 <= k < |r.value| ==> r.value[k] == IdCharset[rng.Index(old(rng.drawn) + k, |IdCharset|)]
    ensures rng.drawn == old(rng.drawn) + |r.value|
  {
    LowerAndDigits();
    var first := rng.GenRange(|Alpha|);
    var chars := [Alpha[first]];
    var k := 1;
    while k < len
      invariant k == 1 || k <= len
      invariant |chars| == k && rng.drawn == old(rng.drawn) + k
      invariant chars[0] == Alpha[rng.Index(old(rng.drawn), |Alpha|)]
      invariant forall j :: 1 <= j < k ==> chars[j] == IdCharset[rng.Index(old(rng.drawn) + j, |IdCharset|)]
    {
      var idx := rng.GenRange(|IdCharset|);
      chars := chars + [IdCharset[idx]];
      k := k + 1;
    }
    return Ok(chars);
  }

  /** The identifier alphabets: lower-case letters only, and digits or lower-case letters. */
  lemma {:induction false} LowerAndDigits()
    ensures |Alpha| == 26 && |IdCharset| == 36
    ensures forall ch :: ch in Alpha <==> IsLower(ch)
    ensures forall ch :: ch in IdCharset <==> IsDigit(ch) || IsLower(ch)
  {
    RangeContents(Digits, '0', 10);
    RangeContents(Lower, 'a', 26);
  }
}
