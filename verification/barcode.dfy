/** The byte-level parts of the barcode scanner: the formatter applied to
    the bytes a decoder reports (GS1 group separators made visible as
    parentheses), and the copy of an RGBA frame's red channel into the
    decoder's heap. */
module Barcode {
  import opened Wrappers
  import opened Strings

  newtype byte = x: int | 0 <= x < 256

  /** ASCII GS, the group separator. */
  const GS: byte := 29

  /** The byte at `i` is the second non-separator byte after a separator,
      with no separator in between: its group closes here. */
  predicate ClosesAt(bs: seq<byte>, i: int)
    requires 0 <= i < |bs|
  {
    i >= 2 && bs[i - 2] == GS && bs[i - 1] != GS && bs[i] != GS
  }

  /** The text one byte contributes: '(' for a separator, otherwise the
      byte's character, followed by ')' when it closes a group. */
  function Piece(bs: seq<byte>, i: int): (p: string)
    requires 0 <= i < |bs|
    ensures bs[i] == GS ==> p == "("
    ensures bs[i] != GS ==> |p| >= 1 && p[0] == bs[i] as int as char
    ensures bs[i] != GS ==> (|p| == 2 <==> ClosesAt(bs, i)) && |p| <= 2
    ensures |p| == 2 ==> p[1] == ')'
  {
    if bs[i] == GS then "("
    else [bs[i] as int as char] + (if ClosesAt(bs, i) then ")" else "")
  }

  /** The formatted text, byte by byte: a reference definition that looks
      only at each byte and the two before it. */
  function Formatted(bs: seq<byte>): (s: string)
  {
    if bs == [] then "" else Formatted(bs[..|bs| - 1]) + Piece(bs, |bs| - 1)
  }

  /** Number of groups closed within `bs`. */
  function Closes(bs: seq<byte>): nat {
    if bs == [] then 0 else Closes(bs[..|bs| - 1]) + (if ClosesAt(bs, |bs| - 1) then 1 else 0)
  }

  /** A group has been opened by the last separator of `bs` and not yet
      closed. */
  predicate Pending(bs: seq<byte>) {
    || (|bs| >= 1 && bs[|bs| - 1] == GS)
    || (|bs| >= 2 && bs[|bs| - 2] == GS && bs[|bs| - 1] != GS)
  }

  lemma PieceOfPrefix(bs: seq<byte>, k: int, i: int)
    requires 0 <= i < k <= |bs|
    ensures Piece(bs[..k], i) == Piece(bs, i)
  {
  }

  /** `decodeCallback`'s loop over the result bytes: a separator emits '('
      and (re)starts a group; each other byte emits its character and, when
      it is the second byte of an open group, a ')' that closes it. */
  method FormatResult(bs: seq<byte>) returns (out: string)
    ensures out == Formatted(bs)
  {
    out := "";
    var separatorIndex := 0;
    var separatorStarted := false;
    var i := 0;
    while i < |bs|
      invariant 0 <= i <= |bs|
      invariant out == Formatted(bs[..i])
      invariant separatorStarted <==> Pending(bs[..i])
      invariant separatorStarted ==> separatorIndex == (if bs[i - 1] == GS then 0 else 1)
    {
      assert bs[..i + 1][..i] == bs[..i];
      PieceOfPrefix(bs, i + 1, i);
      if bs[i] == GS {
        out := out + "(";
        separatorStarted := true;
        separatorIndex := 0;
      } else {
        out := out + [bs[i] as int as char];
        if separatorStarted {
          separatorIndex := separatorIndex + 1;
          if separatorIndex == 2 {
            out := out + ")";
            separatorStarted := false;
          }
        }
      }
      i := i + 1;
    }
    assert bs[..i] == bs;
  }

  /** Without a separator the bytes come out unchanged, one character each. */
  lemma {:induction false} NoSeparatorIdentity(bs: seq<byte>)
    requires GS !in bs
    ensures |Formatted(bs)| == |bs|
    ensures forall i :: 0 <= i < |bs| ==> Formatted(bs)[i] == bs[i] as int as char
  {
    if bs != [] {
      var init := bs[..|bs| - 1];
      NoSeparatorIdentity(init);
    }
  }

  /** The text is one character per byte plus one ')' per closed group. */
  lemma {:induction false} FormattedLength(bs: seq<byte>)
    ensures |Formatted(bs)| == |bs| + Closes(bs)
  {
    if bs != [] {
      FormattedLength(bs[..|bs| - 1]);
    }
  }

  /** Each closed group, and the group still open if any, owns its own
      separator, so there are at most as many ')' as separators. */
  lemma {:induction false} ClosesBounded(bs: seq<byte>)
    ensures Closes(bs) + (if Pending(bs) then 1 else 0) <= Count(bs, GS)
  {
    if bs != [] {
      var init := bs[..|bs| - 1];
      ClosesBounded(init);
      if |bs| >= 2 {
        assert init[|init| - 1] == bs[|bs| - 2];
      }
      if |bs| >= 3 {
        assert init[|init| - 2] == bs[|bs| - 3];
      }
    }
  }

  /** A separator that arrives before the group closes restarts it: the
      interrupted group gets no ')'. */
  lemma InterruptedGroup(pre: seq<byte>, a: byte)
    requires a != GS
    ensures Formatted(pre + [GS, a, GS]) == Formatted(pre) + "(" + [a as int as char] + "("
  {
    var s := pre + [GS, a, GS];
    var n := |pre|;
    var s1, s2 := pre + [GS], pre + [GS, a];
    assert s1[..n] == pre && s2[..n + 1] == s1 && s[..n + 2] == s2;
    assert Formatted(s1) == Formatted(pre) + "(";
    assert !ClosesAt(s2, n + 1);
    assert Formatted(s2) == Formatted(s1) + [a as int as char];
    assert Formatted(s) == Formatted(s2) + "(";
  }

  /** 'A', GS, '0', '1', '2' reads "A(01)2". */
  lemma Example()
    ensures Formatted([65, GS, 48, 49, 50]) == "A(01)2"
  {
    var bs: seq<byte> := [65, GS, 48, 49, 50];
    assert bs[..4][..3] == bs[..3];
    assert bs[..3][..2] == bs[..2];
    assert bs[..2][..1] == bs[..1];
    assert bs[..1][..0] == [];
    assert Formatted(bs[..1]) == "A";
    assert Formatted(bs[..2]) == "A(";
    assert !ClosesAt(bs[..3], 2);
    assert Formatted(bs[..3]) == "A(0";
    assert ClosesAt(bs[..4], 3);
    assert Formatted(bs[..4]) == "A(01)";
    assert !ClosesAt(bs, 4);
    assert bs[..5] == bs;
  }

  /** `decodeImage`'s copy: byte `4 * j` of the frame is written at heap
      address `image + j`; writes outside the heap are dropped, as a typed
      array drops them. */
  function Copied(heap: seq<byte>, image: int, idd: seq<byte>, k: int): (v: byte)
    requires 0 <= k < |heap|
  {
    if image <= k && 4 * (k - image) < |idd| then idd[4 * (k - image)] else heap[k]
  }

  /** The outcome of handing a frame to the decoder. */
  datatype Decoded = Decoded(heap: seq<byte>, callbackRan: bool)

  /** `decodeImage`: copy every fourth frame byte into the heap, run the
      decoder (its status is the parameter `err`), and run the callback
      exactly when the decoder reports -2 (nothing found) and the callback
      is a function. */
  method DecodeImage(heap: seq<byte>, image: int, idd: seq<byte>, err: int, callbackIsFunction: bool)
    returns (r: Decoded)
    ensures |r.heap| == |heap|
    ensures forall k :: 0 <= k < |heap| ==> r.heap[k] == Copied(heap, image, idd, k)
    ensures r.callbackRan <==> err == -2 && callbackIsFunction
  {
    var h := heap;
    var i, j := 0, 0;
    while i < |idd|
      invariant i == 4 * j && 0 <= j
      invariant |h| == |heap|
      invariant forall k :: 0 <= k < |heap| ==>
        h[k] == (if image <= k < image + j && 4 * (k - image) < |idd| then idd[4 * (k - image)] else heap[k])
    {
      if 0 <= image + j < |h| {
        h := h[image + j := idd[i]];
      }
      i, j := i + 4, j + 1;
    }
    r := Decoded(h, err == -2 && callbackIsFunction);
  }
}
