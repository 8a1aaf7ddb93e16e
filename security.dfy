/**
 * Password generation of `zutils/src/security.rs`. The random generator is
 * abstract: an `Rng` reads its raw draws from the oracle `source`, and
 * `GenRange(n)` reduces the next draw into `[0, n)` as `rng.gen_range(0..n)`
 * does. Only lengths and alphabets are modelled, not distributions.
 */
module Security {
  import opened Wrappers

  datatype Charset = Alphanumeric | AlnumSymbols

  const Digits: string := "0123456789"
  const Lower: string := "abcdefghijklmnopqrstuvwxyz"
  const Upper: string := "ABCDEFGHIJKLMNOPQRSTUVWXYZ"
  const Symbols: string := "!@#$%^&*()-_=+[{]};:'\",<.>/?"

  /** `Charset::expand`: the bytes passwords of each charset are drawn from. */
  function Expand(c: Charset): (r: seq<char>)
    ensures c.Alphanumeric? ==> |r| == 62
    ensures c.AlnumSymbols? ==> |r| == 90
  {
    match c
    case Alphanumeric => Digits + Lower + Upper
    case AlnumSymbols => Upper + Lower + Digits + Symbols
  }

  predicate IsDigit(ch: char) { '0' <= ch <= '9' }
  predicate IsLower(ch: char) { 'a' <= ch <= 'z' }
  predicate IsUpper(ch: char) { 'A' <= ch <= 'Z' }

  /** The alphanumeric charset is the 62 bytes `0-9`, `a-z`, `A-Z`. */
  lemma {:induction false} AlphanumericContents()
    ensures |Expand(Alphanumeric)| == 62
    ensures forall ch :: ch in Expand(Alphanumeric) <==> IsDigit(ch) || IsLower(ch) || IsUpper(ch)
  {
    RangeContents(Digits, '0', 10);
    RangeContents(Lower, 'a', 26);
    RangeContents(Upper, 'A', 26);
  }

  /** The symbol charset is the 62 letters and digits followed by the 28 symbols: 90 bytes. */
  lemma {:induction false} AlnumSymbolsContents()
    ensures |Symbols| == 28 && |Expand(AlnumSymbols)| == 90
    ensures forall ch :: ch in Expand(AlnumSymbols) <==> IsDigit(ch) || IsLower(ch) || IsUpper(ch) || ch in Symbols
  {
    RangeContents(Digits, '0', 10);
    RangeContents(Lower, 'a', 26);
    RangeContents(Upper, 'A', 26);
  }

  /** `s` is the `n` consecutive characters from `first`. */
  lemma {:induction false} RangeContents(s: string, first: char, n: nat)
    requires |s| == n && first as int + n < 0xD800
    requires forall k :: 0 <= k < n ==> s[k] as int == first as int + k
    ensures forall ch :: ch in s <==> first <= ch && ch as int < first as int + n
  {
    forall ch | first <= ch && ch as int < first as int + n ensures ch in s {
      assert s[ch as int - first as int] == ch;
    }
  }

  /** A random number generator whose raw draws come from `source`. */
  class Rng {
    const source: nat -> nat
    var drawn: nat

    constructor (source: nat -> nat)
      ensures this.source == source && drawn == 0
    {
      this.source := source;
      drawn := 0;
    }

    /** The index the draw numbered `k` gives for a range of size `n`. */
    function Index(k: nat, n: nat): (i: nat)
      requires n > 0
      ensures i < n
    {
      source(k) % n
    }

    /** `gen_range(0..n)`: the next draw, reduced into `[0, n)`. */
    method GenRange(n: nat) returns (i: nat)
      requires n > 0
      modifies this
      ensures i == Index(old(drawn), n) && drawn == old(drawn) + 1
    {
      i := Index(drawn, n);
      drawn := drawn + 1;
    }
  }

  /**
   * `generate_password`: `length` characters, the k-th being the charset
   * byte at the index of the k-th draw. It never fails.
   */
  method GeneratePassword(length: nat, charset: Charset, rng: Rng) returns (r: Result<string, string>)
    modifies rng
    ensures r.Ok? && |r.value| == length
    ensures forall k :: 0 <= k < length ==> r.value[k] in Expand(charset)
    ensures forall k :: 0 <= k < length ==> r.value[k] == Expand(charset)[rng.Index(old(rng.drawn) + k, |Expand(charset)|)]
    ensures rng.drawn == old(rng.drawn) + length
  {
    var allowed := Expand(charset);
    var password := "";
    for k := 0 to length
      invariant |password| == k && rng.drawn == old(rng.drawn) + k
      invariant forall j :: 0 <= j < k ==> password[j] == allowed[rng.Index(old(rng.drawn) + j, |allowed|)]
    {
      var idx := rng.GenRange(|allowed|);
      password := password + [allowed[idx]];
    }
    return Ok(password);
  }
}
