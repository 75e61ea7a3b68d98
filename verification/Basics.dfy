// Values shared by every module: bytes, optional values and a few sequence facts.
module Basics {
  type byte = x: int | 0 <= x < 256

  datatype Option<+T> = None | Some(value: T)

  function Min(a: int, b: int): int { if a <= b then a else b }

  function Max(a: int, b: int): int { if a >= b then a else b }

  function Zeros(n: nat): (s: seq<byte>)
    ensures |s| == n && forall i :: 0 <= i < n ==> s[i] == 0
  {
    seq(n, _ => 0)
  }

  // Decimal digits of n, most significant first, each written as its glyph.
  function Decimal<T>(n: nat, glyph: int -> T): (s: seq<T>)
    ensures s != []
    ensures forall i :: 0 <= i < |s| ==> exists d :: 0 <= d < 10 && s[i] == glyph(d)
    decreases n
  {
    if n < 10 then [glyph(n)]
    else Decimal(n / 10, glyph) + [glyph(n % 10)]
  }

  // s without its element at index i.
  function Without<T>(s: seq<T>, i: nat): (r: seq<T>)
    requires i < |s|
    ensures |r| == |s| - 1
    ensures multiset(s) == multiset(r) + multiset{s[i]}
  {
    assert s == s[..i] + [s[i]] + s[i + 1..];
    s[..i] + s[i + 1..]
  }

  // Largest element of s, or -1 if there is none.
  ghost function MaxOf(s: set<int>): (m: int)
    ensures s == {} ==> m == -1
    ensures s != {} ==> m in s
    ensures forall x :: x in s ==> x <= m
  {
    if !exists x :: x in s then
      assert s == {};
      -1
    else
      var x :| x in s;
      var rest := s - {x};
      assert s == rest + {x};
      if rest == {} then x else Max(x, MaxOf(rest))
  }
}
