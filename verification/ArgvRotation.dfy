/** The in-place rotation behind the permuting scanner. */
module ArgvRotation {
  /** Two adjacent segments exchanged. */
  function Exchanged(a: seq<string>, bottom: nat, middle: nat, top: nat): (r: seq<string>)
    requires bottom <= middle <= top <= |a|
    ensures |r| == |a|
  {
    a[..bottom] + a[middle..top] + a[bottom..middle] + a[top..]
  }

  /** Two disjoint segments of equal length swapped. */
  function Swapped(a: seq<string>, p: nat, q: nat, len: nat): (r: seq<string>)
    requires p + len <= q && q + len <= |a|
    ensures |r| == |a|
  {
    a[..p] + a[q..q + len] + a[p + len..q] + a[p..p + len] + a[q + len..]
  }

  lemma SwappedPointwise(a: seq<string>, b: seq<string>, p: nat, q: nat, len: nat)
    requires p + len <= q && q + len <= |a| == |b|
    requires forall k :: p <= k < p + len ==> b[k] == a[k + (q - p)]
    requires forall k :: q <= k < q + len ==> b[k] == a[k - (q - p)]
    requires forall k :: 0 <= k < |a| && !(p <= k < p + len) && !(q <= k < q + len) ==> b[k] == a[k]
    ensures b == Swapped(a, p, q, len)
  {
  }

  method SwapSegments(argv: array<string>, p: nat, q: nat, len: nat)
    requires p + len <= q && q + len <= argv.Length
    modifies argv
    ensures argv[..] == Swapped(old(argv[..]), p, q, len)
  {
    var i := 0;
    while i < len
      invariant 0 <= i <= len
      invariant forall k :: p <= k < p + i ==> argv[k] == old(argv[k + (q - p)])
      invariant forall k :: q <= k < q + i ==> argv[k] == old(argv[k - (q - p)])
      invariant forall k :: 0 <= k < argv.Length && !(p <= k < p + i) && !(q <= k < q + i) ==> argv[k] == old(argv[k])
    {
      var tem := argv[p + i];
      argv[p + i] := argv[q + i];
      argv[q + i] := tem;
      i := i + 1;
    }
    SwappedPointwise(old(argv[..]), argv[..], p, q, len);
  }

  /** Where the element at k of an exchange comes from. */
  function ExchangeOrigin(bottom: int, middle: int, top: int, k: int): int {
    if bottom <= k < bottom + (top - middle) then k + (middle - bottom)
    else if bottom + (top - middle) <= k < top then k - (top - middle)
    else k
  }

  /** And of a swap. */
  function SwapOrigin(p: int, q: int, len: int, k: int): int {
    if p <= k < p + len then k + (q - p) else if q <= k < q + len then k - (q - p) else k
  }

  lemma ExchangedAt(a: seq<string>, bottom: nat, middle: nat, top: nat, k: nat)
    requires bottom <= middle <= top <= |a| && k < |a|
    ensures 0 <= ExchangeOrigin(bottom, middle, top, k) < |a|
    ensures Exchanged(a, bottom, middle, top)[k] == a[ExchangeOrigin(bottom, middle, top, k)]
  {
  }

  lemma SwappedAt(a: seq<string>, p: nat, q: nat, len: nat, k: nat)
    requires p + len <= q && q + len <= |a| && k < |a|
    ensures 0 <= SwapOrigin(p, q, len, k) < |a|
    ensures Swapped(a, p, q, len)[k] == a[SwapOrigin(p, q, len, k)]
  {
  }

  /** After swapping the short bottom segment with the far end of the top one,
      the exchange that is left ends where the moved segment begins. */
  lemma BottomShort(a: seq<string>, bottom: nat, middle: nat, top: nat)
    requires bottom <= middle <= top <= |a|
    requires top - middle > middle - bottom
    ensures var len := middle - bottom;
            Exchanged(Swapped(a, bottom, top - len, len), bottom, middle, top - len) == Exchanged(a, bottom, middle, top)
  {
    hide Exchanged, Swapped;
    var len := middle - bottom;
    var r := Swapped(a, bottom, top - len, len);
    var x, y := Exchanged(r, bottom, middle, top - len), Exchanged(a, bottom, middle, top);
    forall k: nat | k < |a| ensures x[k] == y[k] {
      ExchangedAt(r, bottom, middle, top - len, k);
      SwappedAt(a, bottom, top - len, len, ExchangeOrigin(bottom, middle, top - len, k));
      ExchangedAt(a, bottom, middle, top, k);
    }
  }

  /** And the mirror image, when the top segment is the short one. */
  lemma TopShort(a: seq<string>, bottom: nat, middle: nat, top: nat)
    requires bottom <= middle <= top <= |a|
    requires top - middle <= middle - bottom
    ensures var len := top - middle;
            Exchanged(Swapped(a, bottom, middle, len), bottom + len, middle, top) == Exchanged(a, bottom, middle, top)
  {
    hide Exchanged, Swapped;
    var len := top - middle;
    var r := Swapped(a, bottom, middle, len);
    var x, y := Exchanged(r, bottom + len, middle, top), Exchanged(a, bottom, middle, top);
    forall k: nat | k < |a| ensures x[k] == y[k] {
      ExchangedAt(r, bottom + len, middle, top, k);
      SwappedAt(a, bottom, middle, len, ExchangeOrigin(bottom + len, middle, top, k));
      ExchangedAt(a, bottom, middle, top, k);
    }
  }

  lemma ExchangedNothing(a: seq<string>, bottom: nat, middle: nat, top: nat)
    requires bottom <= middle <= top <= |a|
    requires top == middle || middle == bottom
    ensures Exchanged(a, bottom, middle, top) == a
  {
  }

  /** The exchange loop: an in-place rotation of two adjacent segments. */
  method Exchange(argv: array<string>, bottom0: nat, middle: nat, top0: nat)
    requires bottom0 <= middle <= top0 <= argv.Length
    modifies argv
    ensures argv[..] == Exchanged(old(argv[..]), bottom0, middle, top0)
  {
    hide Swapped, Exchanged;
    var bottom, top := bottom0, top0;
    while top > middle && middle > bottom
      invariant bottom0 <= bottom <= middle <= top <= top0
      invariant Exchanged(argv[..], bottom, middle, top) == Exchanged(old(argv[..]), bottom0, middle, top0)
      decreases top - bottom
    {
      if top - middle > middle - bottom {
        var len := middle - bottom;
        BottomShort(argv[..], bottom, middle, top);
        SwapSegments(argv, bottom, top - len, len);
        top := top - len;
      } else {
        var len := top - middle;
        TopShort(argv[..], bottom, middle, top);
        SwapSegments(argv, bottom, middle, len);
        bottom := bottom + len;
      }
    }
    ExchangedNothing(argv[..], bottom, middle, top);
  }
}
