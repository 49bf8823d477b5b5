/** XOR-based zero-run-length encoding of a page against an older copy of it (xbzrle.c): runs of equal bytes
    are skipped, runs of different bytes are copied. */
module Xbzrle {
  import opened Options
  import opened Uleb128

  const WORD := 8

  // ---- The simple form: maximal runs ----

  /** Where the run of equal, or of different, bytes that starts at `i` ends. */
  function RunEnd(a: seq<Octet>, b: seq<Octet>, i: nat, equal: bool): (e: nat)
    requires |a| == |b| && i <= |a|
    ensures i <= e <= |a|
    ensures forall k :: i <= k < e ==> (a[k] == b[k]) == equal
    ensures e < |a| ==> (a[e] == b[e]) != equal
    decreases |a| - i
  {
    if i < |a| && (a[i] == b[i]) == equal then RunEnd(a, b, i + 1, equal) else i
  }

  lemma RunEndIs(a: seq<Octet>, b: seq<Octet>, i: nat, equal: bool, e: nat)
    requires |a| == |b| && i <= e <= |a|
    requires forall k :: i <= k < e ==> (a[k] == b[k]) == equal
    requires e < |a| ==> (a[e] == b[e]) != equal
    ensures RunEnd(a, b, i, equal) == e
  {
  }

  /** The runs' lengths can be encoded, as the encoder asserts; a run of equal bytes at the end is not. */
  ghost predicate ShortRuns(a: seq<Octet>, b: seq<Octet>) {
    && |a| == |b|
    && forall i: nat :: i <= |a| ==>
         && RunEnd(a, b, i, false) - i <= MAX_RUN
         && (RunEnd(a, b, i, true) == |a| || RunEnd(a, b, i, true) - i <= MAX_RUN)
  }

  ghost predicate PieceOk(a: seq<Octet>, b: seq<Octet>, i: nat, z: nat, e: nat) {
    |a| == |b| && i <= z <= e <= |a| && z - i <= MAX_RUN && e - z <= MAX_RUN
  }

  /** A run of equal bytes that ends at a difference: its length, then the different bytes and their number. */
  function Piece(a: seq<Octet>, b: seq<Octet>, i: nat, z: nat, e: nat): seq<Octet>
    requires PieceOk(a, b, i, z, e)
  {
    Uleb(z - i) + Uleb(e - z) + b[z..e]
  }

  /** The encoding of everything from byte `i` on; a run of equal bytes at the end is left out. */
  function Encoded(a: seq<Octet>, b: seq<Octet>, i: nat): seq<Octet>
    requires ShortRuns(a, b) && i <= |a|
    decreases |a| - i
  {
    var z := RunEnd(a, b, i, true);
    if z == |a| then []
    else
      var e := RunEnd(a, b, z, false);
      Piece(a, b, i, z, e) + Encoded(a, b, e)
  }

  /** The encoding is empty exactly if the page has not changed. */
  lemma EncodedEmpty(a: seq<Octet>, b: seq<Octet>)
    requires ShortRuns(a, b)
    ensures Encoded(a, b, 0) == [] <==> a == b
  {
  }

  // ---- Decoding ----

  /** Decodes `src` from byte `i` on into `dst`, from byte `d` on. */
  function Decoded(src: seq<Octet>, i: nat, dst: seq<Octet>, d: nat): (r: Option<seq<Octet>>)
    requires i <= |src| && d <= |dst|
    ensures r.Some? ==> |r.value| == |dst|
    decreases |src| - i
  {
    if i == |src| then Some(dst)
    else if |src| - i < 2 then None
    else
      var zrun := UlebDecode(src[i..]);
      if zrun.Bad? || (i > 0 && zrun.count == 0) || d + zrun.count > |dst| then None
      else
        var j, z := i + zrun.bytes, d + zrun.count;
        if |src| - j < 2 then None
        else
          var nzrun := UlebDecode(src[j..]);
          if nzrun.Bad? || nzrun.count == 0 || z + nzrun.count > |dst| ||
             j + nzrun.bytes + nzrun.count > |src| then None
          else
            var k := j + nzrun.bytes;
            Decoded(src, k + nzrun.count, dst[..z] + src[k..k + nzrun.count] + dst[z + nzrun.count..], z + nzrun.count)
  }

  lemma DecodeStep(src: seq<Octet>, i: nat, dst: seq<Octet>, d: nat, zrun: Length, nzrun: Length)
    requires i + 2 <= |src| && d <= |dst| && UlebDecode(src[i..]) == zrun && zrun.Length?
    requires (i > 0 ==> zrun.count > 0) && d + zrun.count <= |dst|
    requires i + zrun.bytes + 2 <= |src| && UlebDecode(src[i + zrun.bytes..]) == nzrun && nzrun.Length?
    requires nzrun.count > 0 && d + zrun.count + nzrun.count <= |dst|
    requires i + zrun.bytes + nzrun.bytes + nzrun.count <= |src|
    ensures var k, z := i + zrun.bytes + nzrun.bytes, d + zrun.count;
            Decoded(src, i, dst, d) ==
            Decoded(src, k + nzrun.count, dst[..z] + src[k..k + nzrun.count] + dst[z + nzrun.count..], z + nzrun.count)
  {
    hide UlebDecode;
  }

  lemma PieceLengths(a: seq<Octet>, b: seq<Octet>, i: nat, z: nat, e: nat, before: seq<Octet>, after: seq<Octet>)
    requires PieceOk(a, b, i, z, e) && z < e
    ensures var src, p := before + Piece(a, b, i, z, e) + after, |before|;
            && p + 2 <= |src| && UlebDecode(src[p..]) == Length(z - i, |Uleb(z - i)|)
            && p + |Uleb(z - i)| + 2 <= |src| && UlebDecode(src[p + |Uleb(z - i)|..]) == Length(e - z, |Uleb(e - z)|)
  {
    hide Uleb, UlebDecode;
    var src := before + Piece(a, b, i, z, e) + after;
    var p, j := |before|, |before| + |Uleb(z - i)|;
    assert src[p..] == Uleb(z - i) + (Uleb(e - z) + b[z..e] + after);
    UlebRoundTrip(z - i, Uleb(e - z) + b[z..e] + after);
    assert src[j..] == Uleb(e - z) + (b[z..e] + after);
    UlebRoundTrip(e - z, b[z..e] + after);
  }

  ghost predicate EqualUpTo(a: seq<Octet>, b: seq<Octet>, i: nat, z: nat) {
    |a| == |b| && i <= z <= |a| && forall k :: i <= k < z ==> a[k] == b[k]
  }

  /** With the new bytes before byte `i` in place, decoding `src` from its byte `n` on completes them. */
  ghost predicate DecodesFrom(src: seq<Octet>, n: nat, a: seq<Octet>, b: seq<Octet>, i: nat) {
    n <= |src| && |a| == |b| && i <= |a| && Decoded(src, n, b[..i] + a[i..], i) == Some(b)
  }

  /** One piece decodes to the new bytes up to its end. */
  lemma PieceDecodes(a: seq<Octet>, b: seq<Octet>, i: nat, z: nat, e: nat, before: seq<Octet>, after: seq<Octet>)
    requires PieceOk(a, b, i, z, e) && z < e && EqualUpTo(a, b, i, z)
    requires before == [] || i < z
    ensures var src, n := before + Piece(a, b, i, z, e) + after, |before + Piece(a, b, i, z, e)|;
            DecodesFrom(src, n, a, b, e) ==> DecodesFrom(src, |before|, a, b, i)
  {
    hide Uleb, UlebDecode, Decoded, Piece;
    var src := before + Piece(a, b, i, z, e) + after;
    PieceLengths(a, b, i, z, e, before, after);
    PieceSlice(a, b, i, z, e, before, after);
    DecodeStep(src, |before|, b[..i] + a[i..], i, Length(z - i, |Uleb(z - i)|), Length(e - z, |Uleb(e - z)|));
    Spliced(a, b, i, z, e);
  }

  lemma PieceSlice(a: seq<Octet>, b: seq<Octet>, i: nat, z: nat, e: nat, before: seq<Octet>, after: seq<Octet>)
    requires PieceOk(a, b, i, z, e)
    ensures var src, k := before + Piece(a, b, i, z, e) + after, |before| + |Uleb(z - i)| + |Uleb(e - z)|;
            && |Piece(a, b, i, z, e)| == |Uleb(z - i)| + |Uleb(e - z)| + (e - z)
            && k + (e - z) <= |src| && src[k..k + (e - z)] == b[z..e]
  {
    hide Uleb;
    var head := before + Uleb(z - i) + Uleb(e - z);
    MiddleSlice(head, b[z..e], after);
    assert before + Piece(a, b, i, z, e) + after == head + b[z..e] + after;
  }

  lemma MiddleSlice(x: seq<Octet>, y: seq<Octet>, w: seq<Octet>)
    ensures (x + y + w)[|x|..|x| + |y|] == y
  {
  }

  lemma Spliced(a: seq<Octet>, b: seq<Octet>, i: nat, z: nat, e: nat)
    requires EqualUpTo(a, b, i, z) && z <= e <= |a|
    ensures var dst := b[..i] + a[i..]; dst[..z] + b[z..e] + dst[e..] == b[..e] + a[e..]
  {
  }

  /** A run of equal bytes starts at `i`, or nothing does. */
  ghost predicate AtEqual(a: seq<Octet>, b: seq<Octet>, i: nat) {
    |a| == |b| && i <= |a| && (i < |a| ==> a[i] == b[i])
  }

  lemma NextPiece(a: seq<Octet>, b: seq<Octet>, i: nat) returns (z: nat, e: nat)
    requires ShortRuns(a, b) && i <= |a|
    ensures z <= |a| && EqualUpTo(a, b, i, z)
    ensures z == |a| ==> Encoded(a, b, i) == []
    ensures z < |a| ==>
              && PieceOk(a, b, i, z, e) && z < e && AtEqual(a, b, e)
              && Encoded(a, b, i) == Piece(a, b, i, z, e) + Encoded(a, b, e)
              && (AtEqual(a, b, i) ==> i < z)
  {
    z := RunEnd(a, b, i, true);
    e := RunEnd(a, b, z, false);
  }

  lemma {:induction false} EncodedDecodes(a: seq<Octet>, b: seq<Octet>, i: nat, before: seq<Octet>)
    requires ShortRuns(a, b) && i <= |a|
    requires before == [] || AtEqual(a, b, i)
    ensures DecodesFrom(before + Encoded(a, b, i), |before|, a, b, i)
    decreases |a| - i
  {
    hide *;
    var z, e := NextPiece(a, b, i);
    if z == |a| {
      DecodedAll(a, b, i, before);
    } else {
      var piece, rest := Piece(a, b, i, z, e), Encoded(a, b, e);
      EncodedDecodes(a, b, e, before + piece);
      PieceDecodes(a, b, i, z, e, before, rest);
      assert before + (piece + rest) == before + piece + rest;
    }
  }

  lemma DecodedAll(a: seq<Octet>, b: seq<Octet>, i: nat, src: seq<Octet>)
    requires EqualUpTo(a, b, i, |a|)
    ensures DecodesFrom(src + [], |src|, a, b, i)
  {
    assert src + [] == src;
    SameRest(a, b, i);
  }

  lemma SameRest<T>(a: seq<T>, b: seq<T>, i: nat)
    requires |a| == |b| && i <= |a|
    requires forall k :: i <= k < |a| ==> a[k] == b[k]
    ensures b[..i] + a[i..] == b
  {
  }

  /** Decoding the encoding of a page, over the older copy, gives back the page. */
  lemma RoundTrip(a: seq<Octet>, b: seq<Octet>)
    requires ShortRuns(a, b)
    ensures Decoded(Encoded(a, b, 0), 0, a, 0) == Some(b)
  {
    EncodedDecodes(a, b, 0, []);
    assert [] + Encoded(a, b, 0) == Encoded(a, b, 0) && b[..0] + a[0..] == a;
  }

  // ---- A word at a time ----

  function Word(s: seq<Octet>): bv64
    requires |s| == WORD
  {
    (s[0] as bv64) | ((s[1] as bv64) << 8) | ((s[2] as bv64) << 16) | ((s[3] as bv64) << 24) |
    ((s[4] as bv64) << 32) | ((s[5] as bv64) << 40) | ((s[6] as bv64) << 48) | ((s[7] as bv64) << 56)
  }

  /** The test for a zero byte in a word. */
  predicate ZeroByteTest(x: bv64) {
    (x - 0x0101_0101_0101_0101) & !x & 0x8080_8080_8080_8080 != 0
  }

  predicate HasZeroByte(x: bv64) {
    x & 0xff == 0 || x & 0xff00 == 0 || x & 0xff_0000 == 0 || x & 0xff00_0000 == 0 ||
    x & 0xff_0000_0000 == 0 || x & 0xff00_0000_0000 == 0 || x & 0xff_0000_0000_0000 == 0 ||
    x & 0xff00_0000_0000_0000 == 0
  }

  lemma ZeroByteTestExact(x: bv64)
    ensures ZeroByteTest(x) == HasZeroByte(x)
  {
  }

  lemma EqualLow(s: seq<Octet>, t: seq<Octet>)
    requires |s| == |t| == WORD
    ensures (Word(s) ^ Word(t)) & 0xff == 0 <==> s[0] == t[0]
    ensures (Word(s) ^ Word(t)) & 0xff00 == 0 <==> s[1] == t[1]
    ensures (Word(s) ^ Word(t)) & 0xff_0000 == 0 <==> s[2] == t[2]
    ensures (Word(s) ^ Word(t)) & 0xff00_0000 == 0 <==> s[3] == t[3]
  {
  }

  lemma EqualHigh(s: seq<Octet>, t: seq<Octet>)
    requires |s| == |t| == WORD
    ensures (Word(s) ^ Word(t)) & 0xff_0000_0000 == 0 <==> s[4] == t[4]
    ensures (Word(s) ^ Word(t)) & 0xff00_0000_0000 == 0 <==> s[5] == t[5]
    ensures (Word(s) ^ Word(t)) & 0xff_0000_0000_0000 == 0 <==> s[6] == t[6]
    ensures (Word(s) ^ Word(t)) & 0xff00_0000_0000_0000 == 0 <==> s[7] == t[7]
  {
  }

  /** The test finds exactly the words with some equal byte. */
  lemma WordTest(s: seq<Octet>, t: seq<Octet>)
    requires |s| == |t| == WORD
    ensures ZeroByteTest(Word(s) ^ Word(t)) <==> exists k :: 0 <= k < WORD && s[k] == t[k]
  {
    hide Word, ZeroByteTest;
    ZeroByteTestExact(Word(s) ^ Word(t));
    EqualLow(s, t);
    EqualHigh(s, t);
  }

  lemma WordsEqual(s: seq<Octet>, t: seq<Octet>)
    requires |s| == |t| == WORD
    ensures Word(s) == Word(t) <==> s == t
  {
  }

  lemma SliceEqual(a: seq<Octet>, b: seq<Octet>, i: nat)
    requires |a| == |b| && i + WORD <= |a|
    ensures Word(a[i..i + WORD]) == Word(b[i..i + WORD]) ==> forall k :: i <= k < i + WORD ==> a[k] == b[k]
  {
    hide Word;
    WordsEqual(a[i..i + WORD], b[i..i + WORD]);
    if Word(a[i..i + WORD]) == Word(b[i..i + WORD]) {
      forall k | i <= k < i + WORD
        ensures a[k] == b[k]
      {
        assert a[i..i + WORD][k - i] == b[i..i + WORD][k - i];
      }
    }
  }

  lemma SliceTest(a: seq<Octet>, b: seq<Octet>, i: nat)
    requires |a| == |b| && i + WORD <= |a|
    ensures ZeroByteTest(Word(a[i..i + WORD]) ^ Word(b[i..i + WORD])) <==> exists k :: i <= k < i + WORD && a[k] == b[k]
  {
    hide Word, ZeroByteTest;
    var s, t := a[i..i + WORD], b[i..i + WORD];
    WordTest(s, t);
    if k :| i <= k < i + WORD && a[k] == b[k] {
      assert s[k - i] == t[k - i];
    }
    if k :| 0 <= k < WORD && s[k] == t[k] {
      assert a[i + k] == b[i + k];
    }
  }

  /** The end of the run of equal bytes, found a word at a time. */
  method ScanEqual(a: seq<Octet>, b: seq<Octet>, start: nat) returns (i: nat)
    requires |a| == |b| && start <= |a|
    ensures i == RunEnd(a, b, start, true)
  {
    hide RunEnd, Word, ZeroByteTest;
    i := start;
    var res := (|a| - i) % WORD;
    while res != 0 && a[i] == b[i]
      invariant start <= i <= |a| && 0 <= res < WORD && (|a| - i) % WORD == res
      invariant forall k :: start <= k < i ==> a[k] == b[k]
      decreases res
    {
      i, res := i + 1, res - 1;
    }
    if res == 0 {
      while i < |a| && Word(a[i..i + WORD]) == Word(b[i..i + WORD])
        invariant start <= i <= |a| && (|a| - i) % WORD == 0
        invariant forall k :: start <= k < i ==> a[k] == b[k]
      {
        SliceEqual(a, b, i);
        i := i + WORD;
      }
      while i < |a| && a[i] == b[i]
        invariant start <= i <= |a|
        invariant forall k :: start <= k < i ==> a[k] == b[k]
      {
        i := i + 1;
      }
    }
    RunEndIs(a, b, start, true, i);
  }

  method SkipDifferent(a: seq<Octet>, b: seq<Octet>, ghost start: nat, from: nat, ghost stop: nat) returns (i: nat)
    requires |a| == |b| && start <= from <= stop < |a| && a[stop] == b[stop]
    requires forall k :: start <= k < from ==> a[k] != b[k]
    ensures from <= i <= stop && a[i] == b[i] && forall k :: start <= k < i ==> a[k] != b[k]
  {
    i := from;
    while a[i] != b[i]
      invariant from <= i <= stop
      invariant forall k :: start <= k < i ==> a[k] != b[k]
      decreases stop - i
    {
      i := i + 1;
    }
  }

  /** The end of the run of different bytes, found a word at a time. */
  method ScanDifferent(a: seq<Octet>, b: seq<Octet>, start: nat) returns (i: nat)
    requires |a| == |b| && start <= |a|
    ensures i == RunEnd(a, b, start, false)
  {
    hide RunEnd, Word, ZeroByteTest;
    i := start;
    var res := (|a| - i) % WORD;
    while res != 0 && a[i] != b[i]
      invariant start <= i <= |a| && 0 <= res < WORD && (|a| - i) % WORD == res
      invariant forall k :: start <= k < i ==> a[k] != b[k]
      decreases res
    {
      i, res := i + 1, res - 1;
    }
    if res == 0 {
      while i < |a|
        invariant start <= i <= |a| && (|a| - i) % WORD == 0
        invariant forall k :: start <= k < i ==> a[k] != b[k]
      {
        SliceTest(a, b, i);
        if ZeroByteTest(Word(a[i..i + WORD]) ^ Word(b[i..i + WORD])) {
          ghost var stop :| i <= stop < i + WORD && a[stop] == b[stop];
          i := SkipDifferent(a, b, start, i, stop);
          break;
        } else {
          i := i + WORD;
        }
      }
    }
    RunEndIs(a, b, start, false, i);
  }

  /** When the encoder gives up: the encoding does not fit, or it is left with less than two bytes for a run of
      equal bytes at the end, which it would not write. */
  predicate Overflows(a: seq<Octet>, b: seq<Octet>, dlen: nat)
    requires ShortRuns(a, b)
  {
    var n := |Encoded(a, b, 0)|;
    n > dlen || (n + 2 > dlen && a != [] && a[|a| - 1] == b[|a| - 1])
  }

  /** Puts out one piece, and gives up exactly if the whole of it does not fit. */
  method PutPiece(dst: seq<Octet>, dlen: nat, a: seq<Octet>, b: seq<Octet>, i: nat, z: nat, e: nat)
    returns (ok: bool, r: seq<Octet>)
    requires PieceOk(a, b, i, z, e) && z < e
    ensures ok <==> |dst| + |Piece(a, b, i, z, e)| <= dlen
    ensures ok ==> r == dst + Piece(a, b, i, z, e)
    ensures ok ==> r == dst + Uleb(z - i) + Uleb(e - z) + b[z..e]
  {
    r := dst + Uleb(z - i);
    if |r| + 2 > dlen {
      return false, r;
    }
    r := r + Uleb(e - z);
    if |r| + (e - z) > dlen {
      return false, r;
    }
    r := r + b[z..e];
    ok := true;
  }

  /** `dst` holds the pieces before byte `i`. */
  ghost predicate Encoding(a: seq<Octet>, b: seq<Octet>, dst: seq<Octet>, i: nat) {
    && ShortRuns(a, b) && i <= |a| && dst + Encoded(a, b, i) == Encoded(a, b, 0)
    && (i > 0 ==> a[i - 1] != b[i - 1])
  }

  /** Too little room in front of another run means that the encoder gives up; at the end, it is enough. */
  lemma RoomIs(a: seq<Octet>, b: seq<Octet>, dlen: nat, dst: seq<Octet>, i: nat)
    requires Encoding(a, b, dst, i) && |dst| <= dlen
    ensures i < |a| && |dst| + 2 > dlen ==> Overflows(a, b, dlen)
    ensures i == |a| || (|dst| + 2 <= dlen && RunEnd(a, b, i, true) == |a|) ==>
              !Overflows(a, b, dlen) && dst == Encoded(a, b, 0)
  {
    assert |a| == |b|;
    hide RunEnd, Encoded, Piece, ShortRuns;
    EncodedStep(a, b, i);
  }

  lemma NextIs(a: seq<Octet>, b: seq<Octet>, dlen: nat, dst: seq<Octet>, i: nat)
    requires Encoding(a, b, dst, i) && RunEnd(a, b, i, true) < |a|
    ensures var z := RunEnd(a, b, i, true);
            var e := RunEnd(a, b, z, false);
            && PieceOk(a, b, i, z, e) && z < e && Encoding(a, b, dst + Piece(a, b, i, z, e), e)
            && (|dst| + |Piece(a, b, i, z, e)| > dlen ==> Overflows(a, b, dlen))
  {
    assert |a| == |b|;
    hide RunEnd, Encoded, Piece, ShortRuns;
    EncodedStep(a, b, i);
    var z := RunEnd(a, b, i, true);
    var e := RunEnd(a, b, z, false);
    Associative(dst, Piece(a, b, i, z, e), Encoded(a, b, e));
  }

  /** xbzrle_encode_buffer: -1 exactly if the encoder gives up, 0 if the page has not changed. */
  method EncodeBuffer(a: seq<Octet>, b: seq<Octet>, dlen: nat) returns (r: int, dst: seq<Octet>)
    requires ShortRuns(a, b) && |a| % WORD == 0
    ensures r == -1 <==> Overflows(a, b, dlen)
    ensures r != -1 ==> r == |dst| <= dlen && dst == Encoded(a, b, 0)
    ensures r == 0 <==> r != -1 && a == b
  {
    assert Encoding(a, b, [], 0) && |a| == |b|;
    hide *;
    EncodedEmpty(a, b);
    dst := [];
    var i := 0;
    while i < |a|
      invariant 0 <= i <= |a| && |dst| <= dlen && Encoding(a, b, dst, i)
    {
      RoomIs(a, b, dlen, dst, i);
      if |dst| + 2 > dlen {
        return -1, dst;
      }
      var z := ScanEqual(a, b, i);
      if z == |a| {
        return |dst|, dst;
      }
      var e := ScanDifferent(a, b, z);
      NextIs(a, b, dlen, dst, i);
      var ok;
      ok, dst := PutPiece(dst, dlen, a, b, i, z, e);
      if !ok {
        return -1, dst;
      }
      i := e;
    }
    RoomIs(a, b, dlen, dst, |a|);
    r := |dst|;
  }

  lemma Associative<T>(x: seq<T>, y: seq<T>, w: seq<T>)
    ensures x + (y + w) == x + y + w
  {
  }

  lemma EncodedStep(a: seq<Octet>, b: seq<Octet>, i: nat)
    requires ShortRuns(a, b) && i <= |a|
    ensures var z := RunEnd(a, b, i, true);
            if z == |a| then Encoded(a, b, i) == []
            else
              var e := RunEnd(a, b, z, false);
              && PieceOk(a, b, i, z, e) && z < e && Encoded(a, b, i) == Piece(a, b, i, z, e) + Encoded(a, b, e)
              && |Piece(a, b, i, z, e)| >= 3 && a[e - 1] != b[e - 1]
    ensures i < |a| && RunEnd(a, b, i, true) == |a| ==> a[|a| - 1] == b[|a| - 1]
  {
  }

  /** xbzrle_decode_buffer: -1 on a malformed encoding; what has been decoded by then stays in the buffer. */
  method DecodeBuffer(src: seq<Octet>, page: seq<Octet>) returns (r: int, dst: seq<Octet>)
    ensures r == -1 <==> Decoded(src, 0, page, 0) == None
    ensures r != -1 ==> 0 <= r <= |page| && Decoded(src, 0, page, 0) == Some(dst)
  {
    hide UlebDecode;
    dst := page;
    var i, d := 0, 0;
    while i < |src|
      invariant 0 <= i <= |src| && 0 <= d <= |dst| == |page|
      invariant Decoded(src, 0, page, 0) == Decoded(src, i, dst, d)
    {
      if |src| - i < 2 {
        return -1, dst;
      }
      var zrun := UlebDecode(src[i..]);
      if zrun.Bad? || (i > 0 && zrun.count == 0) {
        return -1, dst;
      }
      var j, z := i + zrun.bytes, d + zrun.count;
      if z > |dst| || |src| - j < 2 {
        return -1, dst;
      }
      var nzrun := UlebDecode(src[j..]);
      if nzrun.Bad? || nzrun.count == 0 {
        return -1, dst;
      }
      var k := j + nzrun.bytes;
      if z + nzrun.count > |dst| || k + nzrun.count > |src| {
        return -1, dst;
      }
      dst := dst[..z] + src[k..k + nzrun.count] + dst[z + nzrun.count..];
      d, i := z + nzrun.count, k + nzrun.count;
    }
    r := d;
  }
}
