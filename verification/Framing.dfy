/** The wire format shared by agent and collector: an 8-byte header (type, body length, both
    big-endian) followed by the body; and one pure parser of a whole stream, the reference both
    receive loops are compared with. */
module Framing {
  import opened Bytes

  const HEADER_SIZE: nat := 8

  datatype Msg = Msg(kind: nat, body: Bytes)

  ghost predicate Sendable(m: Msg) {
    m.kind < TWO_32 && |m.body| < TWO_32
  }

  function Header(kind: nat, length: nat): (r: Bytes)
    requires kind < TWO_32 && length < TWO_32
    ensures |r| == HEADER_SIZE
  {
    PutBE32(kind) + PutBE32(length)
  }

  function Frame(m: Msg): (r: Bytes)
    requires Sendable(m)
    ensures |r| == HEADER_SIZE + |m.body|
  {
    Header(m.kind, |m.body|) + m.body
  }

  /** Four bytes as a number, the most significant first. */
  ghost predicate BigEndian(s: Bytes, at: nat, x: nat)
    requires at + 4 <= |s|
  {
    var a: int, b: int, c: int, d: int := s[at], s[at + 1], s[at + 2], s[at + 3];
    a * 0x100_0000 + b * 0x1_0000 + c * 0x100 + d == x
  }

  /** The layout on the wire, byte by byte: type, body length, body. */
  lemma FrameLayout(m: Msg)
    requires Sendable(m)
    ensures BigEndian(Frame(m), 0, m.kind) && BigEndian(Frame(m), 4, |m.body|)
    ensures Frame(m)[8..] == m.body
  {
    BytesOfWord(m.kind);
    BytesOfWord(|m.body|);
  }

  lemma BytesOfWord(x: nat)
    requires x < TWO_32
    ensures BigEndian(PutBE32(x), 0, x)
  {
    var a, b, c := x / 256, x / 256 / 256, x / 256 / 256 / 256;
    assert x == a * 256 + x % 256 && a == b * 256 + a % 256 && b == c * 256 + b % 256;
  }

  ghost function Frames(ms: seq<Msg>): (r: Bytes)
    requires forall m <- ms :: Sendable(m)
  {
    if ms == [] then [] else Frame(ms[0]) + Frames(ms[1..])
  }

  /** The first complete message of a stream, or why there is none: `Short` waits for more bytes,
      `TooLong` announces a body over `limit`. */
  datatype Head = Short | TooLong | Whole(msg: Msg)

  function FirstMsg(s: Bytes, limit: nat): (h: Head)
    ensures h.Whole? ==> Sendable(h.msg) && |h.msg.body| <= limit && HEADER_SIZE + |h.msg.body| <= |s|
  {
    if |s| < HEADER_SIZE then Short
    else if GetBE32(s, 4) > limit then TooLong
    else if |s| < HEADER_SIZE + GetBE32(s, 4) then Short
    else
      var m := Msg(GetBE32(s, 0), s[HEADER_SIZE..HEADER_SIZE + GetBE32(s, 4)]);
      Whole(m)
  }

  /** What a receiver takes for the first message, by the bytes of the stream. */
  lemma FirstMsgIs(s: Bytes, limit: nat, m: Msg)
    ensures FirstMsg(s, limit) == Whole(m) <==>
              && Sendable(m) && |m.body| <= limit && 8 + |m.body| <= |s|
              && BigEndian(s, 0, m.kind) && BigEndian(s, 4, |m.body|) && s[8..8 + |m.body|] == m.body
    ensures FirstMsg(s, limit) == TooLong <==> |s| >= 8 && exists n :: n > limit && BigEndian(s, 4, n)
  {
    if |s| >= 8 {
      WordOfBytes(s, 0);
      WordOfBytes(s, 4);
      assert BigEndian(s, 4, GetBE32(s, 4));
    }
  }

  lemma WordOfBytes(s: Bytes, at: nat)
    requires at + 4 <= |s|
    ensures forall x: nat :: BigEndian(s, at, x) <==> x == GetBE32(s, at)
  {
    assert BigEndian(s, at, GetBE32(s, at));
  }

  lemma FirstIsPrefix(s: Bytes, limit: nat)
    requires FirstMsg(s, limit).Whole?
    ensures var m := FirstMsg(s, limit).msg; s == Frame(m) + s[HEADER_SIZE + |m.body|..]
  {
    var n := HEADER_SIZE + GetBE32(s, 4);
    PutAfterGet(s, 0);
    PutAfterGet(s, 4);
    assert s == s[0..4] + s[4..8] + s[8..n] + s[n..];
  }

  datatype Parsed = Parsed(msgs: seq<Msg>, rest: Bytes, tooLong: bool)

  /** The reference: all messages of `s` in order, the unconsumed tail, and whether the tail
      announces an oversized body. */
  ghost function Parse(s: Bytes, limit: nat): (p: Parsed)
    ensures forall m <- p.msgs :: Sendable(m)
    decreases |s|
  {
    match FirstMsg(s, limit)
    case Short => Parsed([], s, false)
    case TooLong => Parsed([], s, true)
    case Whole(m) =>
      var p := Parse(s[HEADER_SIZE + |m.body|..], limit);
      Parsed([m] + p.msgs, p.rest, p.tooLong)
  }

  lemma {:induction false} FramesCons(m: Msg, ms: seq<Msg>)
    requires Sendable(m) && forall k <- ms :: Sendable(k)
    ensures Frames([m] + ms) == Frame(m) + Frames(ms)
  {
    assert ([m] + ms)[1..] == ms;
  }

  lemma {:induction false} FramesConcat(a: seq<Msg>, b: seq<Msg>)
    requires (forall k <- a :: Sendable(k)) && forall k <- b :: Sendable(k)
    ensures forall k <- a + b :: Sendable(k)
    ensures Frames(a + b) == Frames(a) + Frames(b)
  {
    if a == [] {
      assert a + b == b;
    } else {
      FramesConcat(a[1..], b);
      assert (a + b)[1..] == a[1..] + b;
      Assoc(Frame(a[0]), Frames(a[1..]), Frames(b));
    }
  }

  lemma FramesOne(m: Msg)
    requires Sendable(m)
    ensures Frames([m]) == Frame(m)
  {
    assert [m][1..] == [];
  }

  lemma {:induction false} FramesSnoc(ms: seq<Msg>, m: Msg)
    requires Sendable(m) && forall x <- ms :: Sendable(x)
    ensures Frames(ms + [m]) == Frames(ms) + Frame(m)
  {
    FramesConcat(ms, [m]);
    FramesOne(m);
  }

  lemma FramesUpTo(ms: seq<Msg>, i: nat, j: nat)
    requires i <= j <= |ms| && forall m <- ms :: Sendable(m)
    ensures Frames(ms[..j]) == Frames(ms[..i]) + Frames(ms[i..j])
  {
    hide Frames;
    assert ms[..j] == ms[..i] + ms[i..j];
    FramesConcat(ms[..i], ms[i..j]);
  }

  /** Nothing is lost: the stream is its messages, re-framed, then a tail that holds no whole message. */
  lemma {:induction false} ParseCovers(s: Bytes, limit: nat)
    ensures var p := Parse(s, limit);
            && s == Frames(p.msgs) + p.rest
            && FirstMsg(p.rest, limit) == (if p.tooLong then TooLong else Short)
    decreases |s|
  {
    match FirstMsg(s, limit)
    case Short =>
    case TooLong =>
    case Whole(m) =>
      var tail := s[HEADER_SIZE + |m.body|..];
      ParseCovers(tail, limit);
      FramesCons(m, Parse(tail, limit).msgs);
      FirstIsPrefix(s, limit);
      Assoc(Frame(m), Frames(Parse(tail, limit).msgs), Parse(tail, limit).rest);
  }

  /** A stream may be cut anywhere: parsing a prefix and then its tail with the remainder appended
      finds the messages of the whole. */
  lemma {:induction false} ParseAppend(s: Bytes, t: Bytes, limit: nat)
    requires !Parse(s, limit).tooLong
    ensures var p := Parse(s, limit);
            var q := Parse(p.rest + t, limit);
            Parse(s + t, limit) == Parsed(p.msgs + q.msgs, q.rest, q.tooLong)
    decreases |s|
  {
    var p := Parse(s, limit);
    var q := Parse(p.rest + t, limit);
    match FirstMsg(s, limit)
    case Short =>
      assert p.msgs + q.msgs == q.msgs;
    case Whole(m) =>
      var n := HEADER_SIZE + |m.body|;
      var tail := Parse(s[n..], limit);
      ParseAppend(s[n..], t, limit);
      assert (s + t)[n..] == s[n..] + t;
      FirstOfAppend(s, t, limit);
      Assoc([m], tail.msgs, q.msgs);
  }

  lemma FirstOfAppend(s: Bytes, t: Bytes, limit: nat)
    ensures FirstMsg(s, limit) != Short ==> FirstMsg(s + t, limit) == FirstMsg(s, limit)
  {
    if |s| >= HEADER_SIZE && |s| >= HEADER_SIZE + GetBE32(s, 4) {
      var n := HEADER_SIZE + GetBE32(s, 4);
      assert (s + t)[HEADER_SIZE..n] == s[HEADER_SIZE..n];
    }
  }

  /** Once a prefix is rejected, so is every stream that continues it, with the same messages. */
  lemma {:induction false} ParseRejected(s: Bytes, t: Bytes, limit: nat)
    requires Parse(s, limit).tooLong
    ensures Parse(s + t, limit).tooLong && Parse(s + t, limit).msgs == Parse(s, limit).msgs
    decreases |s|
  {
    FirstOfAppend(s, t, limit);
    match FirstMsg(s, limit)
    case TooLong =>
    case Whole(m) =>
      var n := HEADER_SIZE + |m.body|;
      assert (s + t)[n..] == s[n..] + t;
      ParseRejected(s[n..], t, limit);
  }

  /** Parsing undoes framing, also when the last frame is cut off. */
  lemma {:induction false} ParseFrames(ms: seq<Msg>, cut: Bytes, limit: nat)
    requires forall m <- ms :: Sendable(m) && |m.body| <= limit
    ensures Parse(Frames(ms) + cut, limit) ==
            var q := Parse(cut, limit); Parsed(ms + q.msgs, q.rest, q.tooLong)
  {
    if ms == [] {
      assert Frames(ms) + cut == cut;
      assert ms + Parse(cut, limit).msgs == Parse(cut, limit).msgs;
    } else {
      var s := Frames(ms) + cut;
      var tail := Frames(ms[1..]) + cut;
      ParseFrames(ms[1..], cut, limit);
      FirstOfFrame(ms[0], tail, limit);
      Assoc(Frame(ms[0]), Frames(ms[1..]), cut);
      assert s[HEADER_SIZE + |ms[0].body|..] == tail;
      Assoc([ms[0]], ms[1..], Parse(cut, limit).msgs);
      assert ms == [ms[0]] + ms[1..];
    }
  }

  lemma FirstOfFrame(m: Msg, tail: Bytes, limit: nat)
    requires Sendable(m) && |m.body| <= limit
    ensures FirstMsg(Frame(m) + tail, limit) == Whole(m)
  {
    var s := Frame(m) + tail;
    assert s[0..4] == PutBE32(m.kind);
    assert s[4..8] == PutBE32(|m.body|);
    GetAfterPut(m.kind, s, 0);
    GetAfterPut(|m.body|, s, 4);
    assert s[HEADER_SIZE..HEADER_SIZE + |m.body|] == m.body;
  }

  lemma LengthOfFrame(m: Msg, tail: Bytes)
    requires Sendable(m)
    ensures GetBE32(Frame(m) + tail, 4) == |m.body|
  {
    var s := Frame(m) + tail;
    assert s[4..8] == Frame(m)[4..8] == PutBE32(|m.body|);
    GetAfterPut(|m.body|, s, 4);
  }

  /** The first message whose body is over the limit. */
  function FirstLarge(ms: seq<Msg>, limit: nat): (n: nat)
    ensures n <= |ms| && (forall i | 0 <= i < n :: |ms[i].body| <= limit)
    ensures n < |ms| ==> |ms[n].body| > limit
  {
    if ms == [] || |ms[0].body| > limit then 0 else 1 + FirstLarge(ms[1..], limit)
  }

  /** How many of the first `n` frames are whole among `length` bytes. */
  ghost function Wholes(ms: seq<Msg>, n: nat, length: nat): (k: nat)
    requires n <= |ms| && forall m <- ms :: Sendable(m)
    ensures k <= n && |Frames(ms[..k])| <= length
    ensures k < n ==> length < |Frames(ms[..k + 1])|
  {
    if n == 0 || |Frames(ms[..n])| <= length then n else Wholes(ms, n - 1, length)
  }

  /** A stream of frames, cut off anywhere: the parser finds the whole ones before the first that is over
      the limit, and rejects that one as soon as its header is there. */
  lemma {:induction false} ParseCut(ms: seq<Msg>, wire: Bytes, limit: nat)
    requires (forall m <- ms :: Sendable(m)) && wire <= Frames(ms)
    ensures var n := FirstLarge(ms, limit);
            var k := Wholes(ms, n, |wire|);
            var tooLong := k == n < |ms| && |wire| >= |Frames(ms[..n])| + HEADER_SIZE;
            Parse(wire, limit) == Parsed(ms[..k], wire[|Frames(ms[..k])|..], tooLong)
  {
    hide Parse, Frames, FirstMsg;
    var n := FirstLarge(ms, limit);
    var k := Wholes(ms, n, |wire|);
    FramesUpTo(ms, k, |ms|);
    assert ms[..|ms|] == ms && ms[k..|ms|] == ms[k..];
    var cut := wire[|Frames(ms[..k])|..];
    assert wire == Frames(ms[..k]) + cut && cut <= Frames(ms[k..]);
    ParseFrames(ms[..k], cut, limit);
    assert k < n ==> |cut| < |Frame(ms[k])| by {
      if k < n {
        assert ms[..k + 1] == ms[..k] + [ms[k]];
        FramesSnoc(ms[..k], ms[k]);
      }
    }
    CutTail(ms[k..], cut, limit);
    assert ms[..k] + [] == ms[..k];
  }

  /** A tail that holds no whole frame, or starts with one that is too large. */
  lemma {:induction false} CutTail(ms: seq<Msg>, cut: Bytes, limit: nat)
    requires (forall m <- ms :: Sendable(m)) && cut <= Frames(ms)
    requires ms != [] && |ms[0].body| <= limit ==> |cut| < |Frame(ms[0])|
    ensures Parse(cut, limit) == Parsed([], cut, ms != [] && |ms[0].body| > limit && |cut| >= HEADER_SIZE)
  {
    hide Parse, Frame;
    ParseStep(cut, limit);
    if ms != [] && |cut| >= HEADER_SIZE {
      LengthOfFrame(ms[0], Frames(ms[1..]));
      assert GetBE32(cut, 4) == GetBE32(Frames(ms), 4);
    }
  }

  /** The parser at an offset of a buffer, in the terms a receive loop computes. */
  lemma {:induction false} ParseAt(buf: Bytes, at: nat, limit: nat)
    requires at + HEADER_SIZE <= |buf|
    ensures var s := buf[at..];
            var n := GetBE32(buf, at + 4);
            var next := at + HEADER_SIZE + n;
            if n > limit then Parse(s, limit) == Parsed([], s, true)
            else if next > |buf| then Parse(s, limit) == Parsed([], s, false)
            else var q := Parse(buf[next..], limit);
                 var m := Msg(GetBE32(buf, at), buf[at + HEADER_SIZE..next]);
                 Parse(s, limit) == Parsed([m] + q.msgs, q.rest, q.tooLong)
  {
    hide GetBE32;
    var s := buf[at..];
    var n := GetBE32(buf, at + 4);
    GetFrom(buf, at, 4);
    GetFrom(buf, at, 0);
    if n <= limit && at + HEADER_SIZE + n <= |buf| {
      assert s[HEADER_SIZE..HEADER_SIZE + n] == buf[at + HEADER_SIZE..at + HEADER_SIZE + n];
      assert s[HEADER_SIZE + n..] == buf[at + HEADER_SIZE + n..];
    }
  }

  /** One step of the parser. */
  lemma {:induction false} ParseStep(s: Bytes, limit: nat)
    ensures match FirstMsg(s, limit)
            case Short => Parse(s, limit) == Parsed([], s, false)
            case TooLong => Parse(s, limit) == Parsed([], s, true)
            case Whole(m) =>
              var p := Parse(s[HEADER_SIZE + |m.body|..], limit);
              Parse(s, limit) == Parsed([m] + p.msgs, p.rest, p.tooLong)
  {
  }
}
