/** One line of text, addressed by grapheme-cluster index (src/row.rs).

    Grapheme segmentation is not modelled: a row's text is kept already
    segmented, as a sequence of clusters, each cluster being the non-empty
    UTF-8 bytes of one user-perceived character. A `char` inserted into a row
    becomes exactly one cluster, and joining two cluster sequences is taken to
    give their concatenation (no cluster merges across the seam). */
module Rows {
  import opened Common

  newtype byte = b: int | 0 <= b < 0x100

  /** The UTF-8 bytes of one user-perceived character. */
  datatype Grapheme = Grapheme(bytes: seq<byte>)

  /** A grapheme cluster: stands for the UTF-8 bytes of one grapheme. Only
      non-emptiness is required; UTF-8 validity is not enforced. */
  type Cluster = g: Grapheme | |g.bytes| > 0 witness Grapheme([0x20])

  const TAB: Cluster := Grapheme([0x09])
  const SPACE: Cluster := Grapheme([0x20])

  /** The UTF-8 encoding of a Unicode scalar value, the cluster that
      `String::push(ch)` adds. */
  function Utf8(ch: char): (c: Cluster)
    ensures |c.bytes| <= 4
    ensures |c.bytes| == 1 <==> ch as int < 0x80
    ensures ch as int < 0x80 ==> c.bytes[0] as int == ch as int
  {
    var n := ch as int;
    if n < 0x80 then
      Grapheme([n as byte])
    else if n < 0x800 then
      Grapheme([(0xC0 + n / 0x40) as byte, (0x80 + n % 0x40) as byte])
    else if n < 0x1_0000 then
      Grapheme([(0xE0 + n / 0x1000) as byte, (0x80 + n / 0x40 % 0x40) as byte, (0x80 + n % 0x40) as byte])
    else
      Grapheme([(0xF0 + n / 0x4_0000) as byte, (0x80 + n / 0x1000 % 0x40) as byte,
                (0x80 + n / 0x40 % 0x40) as byte, (0x80 + n % 0x40) as byte])
  }

  /** The bytes of a cluster sequence, as `String::as_bytes` exposes them. */
  function Bytes(t: seq<Cluster>): seq<byte>
  {
    if t == [] then [] else t[0].bytes + Bytes(t[1..])
  }

  /** Every cluster is at least one byte long, so a string never has fewer
      bytes than clusters. */
  lemma {:induction false} ByteLenAtLeastClusterCount(t: seq<Cluster>)
    ensures |Bytes(t)| >= |t|
  {
    if t != [] {
      ByteLenAtLeastClusterCount(t[1..]);
    }
  }

  // ---------------------------------------------------------------------------
  // The row operations on cluster sequences. Each Row method below is proved
  // to leave its text equal to one of these.
  // ---------------------------------------------------------------------------

  /** `Row::insert`: an index at or past the end appends, any other index puts
      `c` in front of the cluster it addresses. */
  function InsertAt(t: seq<Cluster>, at: nat, c: Cluster): (r: seq<Cluster>)
    ensures |r| == |t| + 1
    ensures r[Min(at, |t|)] == c && r[..Min(at, |t|)] + r[Min(at, |t|) + 1..] == t
  {
    if at >= |t| then t + [c] else t[..at] + [c] + t[at..]
  }

  /** `Row::insert_str`: at or past the end the run is appended; at an
      interior index the rebuilt string is never stored, so the text stays
      as it was. */
  function InsertRunAt(t: seq<Cluster>, at: nat, s: seq<Cluster>): (r: seq<Cluster>)
    ensures at >= |t| ==> |r| == |t| + |s| && r[..|t|] == t && r[|t|..] == s
    ensures at < |t| ==> r == t
  {
    if at >= |t| then t + s else t
  }

  /** `Row::delete`: removes the cluster at `at` when there is one. */
  function RemoveAt(t: seq<Cluster>, at: nat): (r: seq<Cluster>)
    ensures at < |t| ==> |r| == |t| - 1 && r[..at] + [t[at]] + r[at..] == t
    ensures at >= |t| ==> r == t
  {
    if at < |t| then t[..at] + t[at + 1..] else t
  }

  /** `Row::delete_slice`: the removed clusters, if the range is non-empty
      and ends within the row, and the text that remains. */
  function CutSlice(t: seq<Cluster>, from: nat, to: nat): (r: (Option<seq<Cluster>>, seq<Cluster>))
    ensures r.0.Some? <==> from < to <= |t|
    ensures r.0.None? ==> r.1 == t
    ensures r.0.Some? ==>
      |r.0.value| == to - from && |r.1| == |t| - (to - from) && r.1[..from] + r.0.value + r.1[from..] == t
  {
    if to > from && to <= |t| then (Some(t[from..to]), t[..from] + t[to..]) else (None, t)
  }

  /** How `render` shows one cluster: a tab as a single space. */
  function Untab(c: Cluster): (r: Cluster)
    ensures r != TAB
    ensures c == TAB ==> r == SPACE
    ensures c != TAB ==> r == c
  {
    if c == TAB then SPACE else c
  }

  /** The clusters `render(start, end)` shows: those with index in
      [start, end) that exist, each tab shown as a space. */
  function Rendered(t: seq<Cluster>, start: nat, end: nat): (r: seq<Cluster>)
    ensures start >= end ==> r == []
    ensures |r| == if start < end then Min(end, |t|) - Min(start, |t|) else 0
    ensures forall k :: 0 <= k < |r| ==>
      r[k] != TAB && r[k] == (if t[Min(start, |t|) + k] == TAB then SPACE else t[Min(start, |t|) + k])
  {
    if start >= end then []
    else
      var lo, hi := Min(start, |t|), Min(end, |t|);
      var r := seq<Cluster>(hi - lo, k requires 0 <= k < hi - lo => Untab(t[lo + k]));
      assert forall k :: 0 <= k < |r| ==> r[k] == Untab(t[lo + k]);
      r
  }

  // ---------------------------------------------------------------------------
  // Properties of the row operations.
  // ---------------------------------------------------------------------------

  /** Inserting a cluster and then deleting at the same index restores the
      text, for every index up to the row's length. */
  lemma InsertThenRemoveRestores(t: seq<Cluster>, at: nat, c: Cluster)
    requires at <= |t|
    ensures RemoveAt(InsertAt(t, at, c), at) == t
  {
    var r := InsertAt(t, at, c);
    assert r[..at] + r[at + 1..] == t;
  }

  /** `delete_slice(k, len)` with `k < len` splits the row: the text that
      remains followed by the returned tail is the original text. */
  lemma CutTailSplits(t: seq<Cluster>, k: nat)
    requires k < |t|
    ensures CutSlice(t, k, |t|).0.Some?
    ensures CutSlice(t, k, |t|).1 + CutSlice(t, k, |t|).0.value == t
  {
    assert t[..k] + t[k..] == t;
  }

  // ---------------------------------------------------------------------------
  // The row object.
  // ---------------------------------------------------------------------------

  class Row {
    /** The row's `string`, as its grapheme clusters. */
    var text: seq<Cluster>
    /** The cached cluster count `len`. */
    var len: nat

    /** The cached length agrees with the text. */
    ghost predicate Valid()
      reads this
    {
      len == |text|
    }

    /** `Row::default()`: the empty row. */
    constructor Empty()
      ensures Valid() && text == []
    {
      text := [];
      len := 0;
    }

    /** `From<String>` and `From<&str>`: a row holding `s`, its length
        computed by `update_len`. */
    constructor From(s: seq<Cluster>)
      ensures Valid() && text == s
    {
      text := s;
      len := 0;
      new;
      UpdateLen();
    }

    /** `size`: the cluster count, recounted from the text. */
    function Size(): (n: nat)
      reads this
      ensures Valid() ==> n == len
    {
      |text|
    }

    /** `as_bytes`: the row's UTF-8 bytes, never fewer than its clusters. */
    function AsBytes(): (b: seq<byte>)
      reads this
      ensures |b| >= Size()
    {
      ByteLenAtLeastClusterCount(text);
      Bytes(text)
    }

    /** `update_len`: recount the clusters into `len`. */
    method UpdateLen()
      modifies this`len
      ensures Valid()
    {
      len := |text|;
    }

    /** `render`: the end index is first clamped to the BYTE length, the start
        to the end; then the clusters from the start are taken, at most
        end - start of them. Because a cluster has at least one byte, the byte
        clamp never cuts anything the cluster count would not. */
    method Render(start: nat, end: nat) returns (result: seq<Cluster>)
      ensures result == Rendered(text, start, end)
    {
      ByteLenAtLeastClusterCount(text);
      var e := Min(end, |Bytes(text)|);
      var s := Min(start, e);
      result := [];
      var taken := 0;
      while taken < e - s && s + taken < |text|
        invariant taken <= e - s
        invariant taken == 0 || s + taken <= |text|
        invariant |result| == taken
        invariant forall k :: 0 <= k < taken ==> result[k] == Untab(text[s + k])
      {
        result := result + [Untab(text[s + taken])];
        taken := taken + 1;
      }
      assert start < end && taken > 0 ==> s == Min(start, |text|);
    }

    /** `insert`: one new cluster for `ch`, placed by `InsertAt`. */
    method Insert(at: nat, ch: char)
      requires Valid()
      modifies this
      ensures Valid() && text == InsertAt(old(text), at, Utf8(ch))
    {
      if at >= len {
        text := text + [Utf8(ch)];
      } else {
        var result := text[..at];
        var remainder := text[at..];
        result := result + [Utf8(ch)];
        result := result + remainder;
        text := result;
      }
      UpdateLen();
    }

    /** `insert_str`: appends `s` when `at` is at or past the end; at an
        interior index the rebuilt text is discarded and the row is left as
        it was. */
    method InsertStr(at: nat, s: seq<Cluster>)
      requires Valid()
      modifies this
      ensures Valid() && text == InsertRunAt(old(text), at, s)
    {
      if at >= len {
        text := text + s;
      } else {
        var result := text[..at];
        var remainder := text[at..];
        result := result + s;
        result := result + remainder;
      }
      UpdateLen();
    }

    /** `delete`: removes the cluster at `at` if there is one, else nothing. */
    method Delete(at: nat)
      requires Valid()
      modifies this
      ensures Valid() && text == RemoveAt(old(text), at)
    {
      if at < len {
        var result := text[..at];
        var remainder := text[at + 1..];
        result := result + remainder;
        text := result;
        UpdateLen();
      }
    }

    /** `delete_slice`: carves clusters [from, to) out of the row and returns
        them, or returns None and changes nothing unless from < to <= len. */
    method DeleteSlice(from: nat, to: nat) returns (removed: Option<seq<Cluster>>)
      requires Valid()
      modifies this
      ensures Valid() && (removed, text) == CutSlice(old(text), from, to)
    {
      if to > from && to <= len {
        var removedPart := text[from..to];
        var result := text[..from];
        var remainder := text[from + to - from..];
        result := result + remainder;
        text := result;
        UpdateLen();
        return Some(removedPart);
      }
      return None;
    }
  }
}
