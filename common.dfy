/** Vocabulary shared by the row, document and editor models: optional
    values, the machine integer ranges the editor uses, saturating
    arithmetic and cursor positions. */
module Common {

  datatype Option<T> = None | Some(value: T)

  /** Largest value of Rust's `usize` on a 64-bit target. */
  const USIZE_MAX: nat := 0xFFFF_FFFF_FFFF_FFFF

  type u8 = n: nat | n < 0x100
  type u16 = n: nat | n < 0x1_0000

  function Min(a: int, b: int): int { if a <= b then a else b }
  function Max(a: int, b: int): int { if a >= b then a else b }

  /** `usize::saturating_add`: stops at USIZE_MAX instead of wrapping. */
  function SatAdd(a: nat, b: nat): nat
  {
    if a + b > USIZE_MAX then USIZE_MAX else a + b
  }

  /** `usize::saturating_sub` (and the `u16` one): stops at 0. */
  function SatSub(a: nat, b: nat): nat
  {
    if a >= b then a - b else 0
  }

  /** A cursor or viewport coordinate: `x` counts grapheme clusters within a
      row, `y` counts rows. */
  datatype Position = Position(x: nat, y: nat)
}

module SeqFacts {
  /** No element occurs at two positions. */
  ghost predicate Distinct<T>(s: seq<T>)
  {
    forall i, j :: 0 <= i < j < |s| ==> s[i] != s[j]
  }

  /** Inserting a new element at `k` adds nothing but that element and
      keeps the elements pairwise distinct. */
  lemma InsertedDistinct<T>(s: seq<T>, k: nat, v: T)
    requires k <= |s|
    ensures forall x :: x in s[..k] + [v] + s[k..] ==> x in s || x == v
    ensures Distinct(s) && v !in s ==> Distinct(s[..k] + [v] + s[k..])
  {
    var r := s[..k] + [v] + s[k..];
    assert forall x :: x in s[..k] || x in s[k..] ==> x in s by {
      assert s == s[..k] + s[k..];
    }
    if Distinct(s) && v !in s {
      forall i, j | 0 <= i < j < |r| ensures r[i] != r[j] {
        if i != k && j != k {
          assert r[i] == s[if i < k then i else i - 1];
          assert r[j] == s[if j < k then j else j - 1];
        }
      }
    }
  }

  /** Removing the element at `k` adds nothing and keeps the elements
      pairwise distinct. */
  lemma RemovedDistinct<T>(s: seq<T>, k: nat)
    requires k < |s|
    ensures forall x :: x in s[..k] + s[k + 1..] ==> x in s
    ensures Distinct(s) ==> Distinct(s[..k] + s[k + 1..])
  {
    var r := s[..k] + s[k + 1..];
    assert forall x :: x in s[..k] || x in s[k + 1..] ==> x in s;
    if Distinct(s) {
      forall i, j | 0 <= i < j < |r| ensures r[i] != r[j] {
        assert r[i] == s[if i < k then i else i + 1];
        assert r[j] == s[if j < k then j else j + 1];
      }
    }
  }
}
