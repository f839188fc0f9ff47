/** Value types shared by the modules of the gateway model. */
module Prelude {

  datatype Option<+T> = None | Some(value: T)

  datatype Result<+T, +E> = Ok(value: T) | Err(error: E)

  type byte = b: int | 0 <= b < 256

  type u16 = n: int | 0 <= n < 0x1_0000

  /** Big-endian reading of a byte string. */
  function FromBigEndian(s: seq<byte>): nat {
    if |s| == 0 then 0 else FromBigEndian(s[..|s| - 1]) * 256 + s[|s| - 1]
  }

  /** The two bytes of a 16-bit value, most significant first. */
  function U16Bytes(n: u16): seq<byte> {
    [n / 256, n % 256]
  }

  /** The 16-bit value of two bytes, most significant first. */
  function U16Value(hi: byte, lo: byte): u16 {
    hi * 256 + lo
  }

  function LowerChar(c: char): (r: char)
    ensures c as int < 256 ==> r as int < 256
  {
    if 'A' <= c <= 'Z' then (c as int + 32) as char else c
  }

  function UpperChar(c: char): (r: char)
    ensures c as int < 256 ==> r as int < 256
  {
    if 'a' <= c <= 'z' then (c as int - 32) as char else c
  }

  function ToLower(s: string): (r: string)
    ensures |r| == |s|
    ensures forall i :: 0 <= i < |s| ==> r[i] == LowerChar(s[i])
  {
    seq(|s|, i requires 0 <= i < |s| => LowerChar(s[i]))
  }

  /** The same character, or the two cases of one ASCII letter. */
  predicate SameLetter(a: char, b: char) {
    || a == b
    || ('a' <= a <= 'z' && 'A' <= b <= 'Z' && a as int - 'a' as int == b as int - 'A' as int)
    || ('A' <= a <= 'Z' && 'a' <= b <= 'z' && a as int - 'A' as int == b as int - 'a' as int)
  }

  ghost predicate EqualIgnoringCase(a: string, b: string) {
    |a| == |b| && forall i :: 0 <= i < |a| ==> SameLetter(a[i], b[i])
  }

  lemma CaseFolds(a: char, b: char)
    ensures LowerChar(a) == LowerChar(b) <==> SameLetter(a, b)
    ensures UpperChar(a) == UpperChar(b) <==> SameLetter(a, b)
    ensures SameLetter(a, LowerChar(a)) && SameLetter(a, UpperChar(a))
    ensures !('A' <= LowerChar(a) <= 'Z') && !('a' <= UpperChar(a) <= 'z')
  {
  }

  /** Lower-casing identifies exactly the texts that differ in ASCII case only. */
  lemma LowerEqual(a: string, b: string)
    ensures ToLower(a) == ToLower(b) <==> EqualIgnoringCase(a, b)
  {
    forall i | 0 <= i < |a| && i < |b| ensures ToLower(a)[i] == ToLower(b)[i] <==> SameLetter(a[i], b[i]) {
      CaseFolds(a[i], b[i]);
    }
    if EqualIgnoringCase(a, b) {
      assert ToLower(a) == ToLower(b);
    }
  }

  /** The bytes of a stream that arrives in pieces. */
  function Concat(chunks: seq<seq<byte>>): seq<byte> {
    if |chunks| == 0 then [] else chunks[0] + Concat(chunks[1..])
  }

  lemma {:induction false} ConcatLast(chunks: seq<seq<byte>>)
    requires |chunks| > 0
    ensures Concat(chunks) == Concat(chunks[..|chunks| - 1]) + chunks[|chunks| - 1]
  {
    if |chunks| == 1 {
      assert chunks[1..] == [];
    } else {
      ConcatLast(chunks[1..]);
      assert chunks[..|chunks| - 1][1..] == chunks[1..][..|chunks| - 2];
    }
  }

  lemma SubsetSize<T>(a: set<T>, b: set<T>)
    requires a <= b
    ensures |a| <= |b| && (|a| == |b| ==> a == b)
  {
    assert |b - a| + |b * a| == |b|;
    assert b * a == a;
  }

  lemma {:induction false} UpperBound(s: set<nat>) returns (b: nat)
    ensures b !in s && forall x :: x in s ==> x < b
  {
    if s == {} {
      b := 0;
    } else {
      var x :| x in s;
      var rest := UpperBound(s - {x});
      b := if rest > x then rest else x + 1;
      assert forall y :: y in s ==> y == x || y in s - {x};
    }
  }

  /** Removing a key forgets what was last put under it. */
  lemma PutThenRemove<K, V>(m: map<K, V>, k: K, v: V)
    ensures m[k := v] - {k} == m - {k}
    ensures k !in m ==> m - {k} == m
  {
  }
}
