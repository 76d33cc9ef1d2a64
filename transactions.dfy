/** Transactions: one transfer request and its structural validity check
    (src/models/transaction.rs). */
module Transactions {

  /** A transfer of `amount` from `from` to `to`. The source's `f64` is modelled as a
      `real`; NaN, infinities and rounding are not represented. */
  datatype Txn = Txn(amount: real, from: string, to: string)

  /** `Txn::new`: stores its three arguments verbatim. */
  function New(amount: real, from: string, to: string): (t: Txn)
    ensures t.amount == amount && t.from == from && t.to == to
  {
    Txn(amount, from, to)
  }

  /** Rust's `char::is_whitespace`: the Unicode White_Space property. */
  predicate IsWhitespace(c: char) {
    || ('\t' <= c <= '\r')
    || c == ' '
    || c == '\U{0085}'
    || c == '\U{00A0}'
    || c == '\U{1680}'
    || ('\U{2000}' <= c <= '\U{200A}')
    || c == '\U{2028}'
    || c == '\U{2029}'
    || c == '\U{202F}'
    || c == '\U{205F}'
    || c == '\U{3000}'
  }

  /** Rust's `str::trim_start`: drops leading whitespace. */
  function TrimStart(s: string): string
    decreases |s|
  {
    if s != [] && IsWhitespace(s[0]) then TrimStart(s[1..]) else s
  }

  /** Rust's `str::trim_end`: drops trailing whitespace. */
  function TrimEnd(s: string): string
    decreases |s|
  {
    if s != [] && IsWhitespace(s[|s| - 1]) then TrimEnd(s[..|s| - 1]) else s
  }

  /** Rust's `str::trim`. */
  function Trim(s: string): string {
    TrimEnd(TrimStart(s))
  }

  /** `TrimStart` removes the longest whitespace prefix: the result is a suffix of `s`,
      everything dropped is whitespace, and the result does not start with whitespace. */
  lemma {:induction false} TrimStartSpec(s: string)
    ensures |TrimStart(s)| <= |s| && TrimStart(s) == s[|s| - |TrimStart(s)|..]
    ensures forall i :: 0 <= i < |s| - |TrimStart(s)| ==> IsWhitespace(s[i])
    ensures TrimStart(s) != [] ==> !IsWhitespace(TrimStart(s)[0])
    decreases |s|
  {
    if s != [] && IsWhitespace(s[0]) {
      TrimStartSpec(s[1..]);
      var r := TrimStart(s[1..]);
      assert s[1..][|s| - 1 - |r|..] == s[|s| - |r|..];
      forall i | 1 <= i < |s| - |r| ensures IsWhitespace(s[i]) {
        assert s[i] == s[1..][i - 1];
      }
    }
  }

  /** `TrimEnd` removes the longest whitespace suffix: the result is a prefix of `s`,
      everything dropped is whitespace, and the result does not end with whitespace. */
  lemma {:induction false} TrimEndSpec(s: string)
    ensures |TrimEnd(s)| <= |s| && TrimEnd(s) == s[..|TrimEnd(s)|]
    ensures forall i :: |TrimEnd(s)| <= i < |s| ==> IsWhitespace(s[i])
    ensures TrimEnd(s) != [] ==> !IsWhitespace(TrimEnd(s)[|TrimEnd(s)| - 1])
    decreases |s|
  {
    if s != [] && IsWhitespace(s[|s| - 1]) {
      TrimEndSpec(s[..|s| - 1]);
      var r := TrimEnd(s[..|s| - 1]);
      assert s[..|s| - 1][..|r|] == s[..|r|];
      forall i | |r| <= i < |s| - 1 ensures IsWhitespace(s[i]) {
        assert s[i] == s[..|s| - 1][i];
      }
    }
  }

  /** `s` holds at least one character that is not whitespace. */
  predicate HasVisible(s: string) {
    exists i :: 0 <= i < |s| && !IsWhitespace(s[i])
  }

  /** Trimming leaves nothing exactly when every character is whitespace. */
  lemma TrimEmptyIffBlank(s: string)
    ensures Trim(s) == [] <==> !HasVisible(s)
  {
    var a := TrimStart(s);
    TrimStartSpec(s);
    TrimEndSpec(a);
    if Trim(s) == [] {
      assert a == [];
    } else {
      var k := |s| - |a|;
      assert a != [] && a[0] == s[k];
    }
  }

  /** `Txn::is_valid`: positive amount and both addresses non-empty after trimming. */
  predicate IsValid(t: Txn) {
    t.amount > 0.0 && Trim(t.from) != [] && Trim(t.to) != []
  }

  /** A transaction is valid exactly when its amount is positive and each address holds
      a non-whitespace character; so a zero or negative amount, or a blank address,
      makes it invalid whatever the rest is. */
  lemma IsValidMeans(t: Txn)
    ensures IsValid(t) <==> t.amount > 0.0 && HasVisible(t.from) && HasVisible(t.to)
    ensures t.amount <= 0.0 ==> !IsValid(t)
    ensures !HasVisible(t.from) || !HasVisible(t.to) ==> !IsValid(t)
  {
    TrimEmptyIffBlank(t.from);
    TrimEmptyIffBlank(t.to);
  }
}
