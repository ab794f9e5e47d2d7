/** The socket side of the send path: `TransLayer::_do_write_data` over a `send` whose answers
    are given in advance. */
module SendPipe {
  import opened Bytes

  /** One answer of `send`: it took up to `k` bytes (0 is an error to the caller), would block, or failed. */
  datatype SendReply = Took(k: nat) | WouldBlock | Failed

  datatype Status = Complete | Blocked | Broken

  /** What came of an attempt to send: bytes taken, why it ended, and how many answers have been used by then. */
  datatype SendRun = SendRun(sent: nat, status: Status, pos: nat)

  /** The answer to a `send`; would-block once the answers run out. */
  function Reply(script: seq<SendReply>, pos: nat): (r: SendReply) {
    if pos < |script| then script[pos] else WouldBlock
  }

  /** Sending `n` bytes: until all are taken or an answer is no progress. */
  function SendAll(script: seq<SendReply>, pos: nat, n: nat): (r: SendRun)
    ensures r.sent <= n && (r.status == Complete <==> r.sent == n) && pos <= r.pos
    ensures r.sent > 0 ==> pos < |script| && pos < r.pos
    decreases n
  {
    if n == 0 then SendRun(0, Complete, pos)
    else
      match Reply(script, pos)
      case Took(k) =>
        if k == 0 then SendRun(0, Broken, pos + 1)
        else
          var took := if k <= n then k else n;
          var r := SendAll(script, pos + 1, n - took);
          SendRun(took + r.sent, r.status, r.pos)
      case WouldBlock => SendRun(0, Blocked, pos + 1)
      case Failed => SendRun(0, Broken, pos + 1)
  }

  /** Offering blocks of the given sizes one after the other, as `drainOutWithPipe` does: a block
      that was partly taken is offered again, one of which nothing was taken ends the run. */
  function Drain(script: seq<SendReply>, pos: nat, sizes: seq<nat>): (r: SendRun)
    decreases if pos < |script| then |script| - pos else 0, |sizes|
  {
    if sizes == [] then SendRun(0, Complete, pos)
    else
      var r := SendAll(script, pos, sizes[0]);
      match r.status
      case Broken => r
      case Complete =>
        var s := Drain(script, r.pos, sizes[1..]);
        SendRun(r.sent + s.sent, s.status, s.pos)
      case Blocked =>
        if r.sent == 0 then r
        else
          var s := Drain(script, r.pos, [sizes[0] - r.sent] + sizes[1..]);
          SendRun(r.sent + s.sent, s.status, s.pos)
  }

  lemma {:induction false} DrainTurn(script: seq<SendReply>, pos: nat, sizes: seq<nat>)
    ensures sizes == [] ==> Drain(script, pos, sizes) == SendRun(0, Complete, pos)
    ensures sizes != [] ==>
              var r, d := SendAll(script, pos, sizes[0]), Drain(script, pos, sizes);
              var left := if r.status == Complete then sizes[1..] else [sizes[0] - r.sent] + sizes[1..];
              var s := Drain(script, r.pos, left);
              d == if r.status == Broken || (r.status == Blocked && r.sent == 0) then r
                   else SendRun(r.sent + s.sent, s.status, s.pos)
  {
  }

  /** A run that did not get everything through ended with an answer that says why. */
  ghost predicate EndedBy(script: seq<SendReply>, r: SendRun) {
    && (r.status == Blocked ==> r.pos > 0 && Reply(script, r.pos - 1) == WouldBlock)
    && (r.status == Broken ==> r.pos > 0 && (Reply(script, r.pos - 1) == Took(0) || Reply(script, r.pos - 1) == Failed))
  }

  lemma {:induction false} SendEndedBy(script: seq<SendReply>, pos: nat, n: nat)
    ensures var r := SendAll(script, pos, n);
            EndedBy(script, r) && (r.sent == 0 ==> r.pos == if n == 0 then pos else pos + 1)
    decreases n
  {
    var reply := Reply(script, pos);
    if n > 0 && reply.Took? && reply.k > 0 {
      SendEndedBy(script, pos + 1, n - if reply.k <= n then reply.k else n);
    }
  }

  function Total(sizes: seq<nat>): (n: nat) {
    if sizes == [] then 0 else sizes[0] + Total(sizes[1..])
  }

  /** What is left of the blocks when `n` bytes have been taken off the front. */
  function Unsent(sizes: seq<nat>, n: nat): (r: seq<nat>)
    decreases |sizes|
  {
    if sizes == [] then []
    else if n >= sizes[0] then Unsent(sizes[1..], n - sizes[0])
    else [sizes[0] - n] + sizes[1..]
  }

  ghost predicate Positive(sizes: seq<nat>) {
    forall i | 0 <= i < |sizes| :: sizes[i] > 0
  }

  lemma {:induction false} UnsentTotal(sizes: seq<nat>, n: nat)
    requires n <= Total(sizes) && Positive(sizes)
    ensures Total(Unsent(sizes, n)) == Total(sizes) - n && Positive(Unsent(sizes, n))
    ensures Unsent(sizes, n) == [] <==> n == Total(sizes)
    decreases |sizes|
  {
    if sizes == [] {
    } else if n >= sizes[0] {
      UnsentTotal(sizes[1..], n - sizes[0]);
    } else {
      assert ([sizes[0] - n] + sizes[1..])[1..] == sizes[1..];
    }
  }

  lemma {:induction false} UnsentTwice(sizes: seq<nat>, m: nat, n: nat)
    ensures Unsent(Unsent(sizes, m), n) == Unsent(sizes, m + n)
    decreases |sizes|
  {
    if sizes == [] {
    } else if m >= sizes[0] {
      UnsentTwice(sizes[1..], m - sizes[0], n);
    } else {
      assert ([sizes[0] - m] + sizes[1..])[1..] == sizes[1..];
    }
  }

  lemma {:induction false} UnsentNothing(sizes: seq<nat>)
    requires Positive(sizes)
    ensures Unsent(sizes, 0) == sizes
  {
    assert sizes != [] ==> [sizes[0]] + sizes[1..] == sizes;
  }

  lemma {:induction false} UnsentTurn(sizes: seq<nat>, n: nat)
    requires sizes != [] && Positive(sizes) && n <= sizes[0]
    ensures Unsent(sizes, n) == if n == sizes[0] then sizes[1..] else [sizes[0] - n] + sizes[1..]
  {
    UnsentNothing(sizes[1..]);
  }

  /** Part of the way through a drain of `all`: what is left of it is the drain of `sizes` from `pos` on. */
  ghost predicate Left(script: seq<SendReply>, all: seq<nat>, whole: SendRun, sent: nat, pos: nat, sizes: seq<nat>) {
    var r := Drain(script, pos, sizes);
    whole == SendRun(sent + r.sent, r.status, r.pos) && Positive(sizes) && sizes == Unsent(all, sent)
  }

  lemma {:induction false} StartLeft(script: seq<SendReply>, pos: nat, sizes: seq<nat>)
    requires Positive(sizes)
    ensures Left(script, sizes, Drain(script, pos, sizes), 0, pos, sizes)
  {
    UnsentNothing(sizes);
  }

  lemma {:induction false} LeftIs(script: seq<SendReply>, all: seq<nat>, whole: SendRun, sent: nat, pos: nat,
                                  sizes: seq<nat>)
    requires Left(script, all, whole, sent, pos, sizes)
    ensures sizes == Unsent(all, sent)
  {
  }

  lemma {:induction false} LeftTurn(script: seq<SendReply>, all: seq<nat>, whole: SendRun, sent: nat, pos: nat,
                                    sizes: seq<nat>)
    requires Left(script, all, whole, sent, pos, sizes)
    ensures sizes == Unsent(all, sent) && (sizes == [] ==> whole == SendRun(sent, Complete, pos))
    ensures sizes != [] ==>
              var r := SendAll(script, pos, sizes[0]);
              var left := if r.status == Complete then sizes[1..] else [sizes[0] - r.sent] + sizes[1..];
              if r.status == Broken || (r.status == Blocked && r.sent == 0)
              then whole == SendRun(sent + r.sent, r.status, r.pos)
              else Left(script, all, whole, sent + r.sent, r.pos, left)
  {
    hide SendAll, Drain, Unsent;
    DrainTurn(script, pos, sizes);
    if sizes != [] {
      var r := SendAll(script, pos, sizes[0]);
      UnsentTurn(sizes, r.sent);
      UnsentTwice(all, sent, r.sent);
    }
  }

  /** A drain that ends blocked was refused when it offered a block, whole or what was left of it: the
      answer before the last was a would-block too, or what is sent ends where a block ends. */
  ghost predicate Refused(script: seq<SendReply>, pos: nat, sizes: seq<nat>, r: SendRun) {
    r.status == Blocked ==>
      if r.sent == 0 then r.pos == pos + 1
      else r.pos > pos + 1 && (Reply(script, r.pos - 2) == WouldBlock || Boundary(sizes, r.sent))
  }

  ghost predicate Boundary(sizes: seq<nat>, n: nat) {
    n == 0 || (sizes != [] && n >= sizes[0] && Boundary(sizes[1..], n - sizes[0]))
  }

  /** Of a block that was partly taken the rest is offered again at once. */
  lemma {:induction false} DrainRefused(script: seq<SendReply>, pos: nat, sizes: seq<nat>)
    ensures Refused(script, pos, sizes, Drain(script, pos, sizes))
    decreases if pos < |script| then |script| - pos else 0, |sizes|
  {
    hide SendAll, Drain;
    DrainTurn(script, pos, sizes);
    if sizes != [] {
      var r := SendAll(script, pos, sizes[0]);
      SendEndedBy(script, pos, sizes[0]);
      if r.status == Complete {
        DrainRefused(script, r.pos, sizes[1..]);
        var s := Drain(script, r.pos, sizes[1..]);
        assert Boundary(sizes[1..], s.sent) ==> Boundary(sizes, sizes[0] + s.sent);
        assert s.sent == 0 ==> Boundary(sizes[1..], s.sent);
      } else if r.status == Blocked && r.sent > 0 {
        var left := [sizes[0] - r.sent] + sizes[1..];
        assert left[1..] == sizes[1..];
        DrainRefused(script, r.pos, left);
        assert r.pos > pos;
      }
    }
  }

  /** A drain sends everything unless the socket would block or fails. */
  lemma {:induction false} DrainEndedBy(script: seq<SendReply>, pos: nat, sizes: seq<nat>)
    ensures var r := Drain(script, pos, sizes);
            EndedBy(script, r) && r.sent <= Total(sizes) && (r.status == Complete ==> r.sent == Total(sizes))
    decreases if pos < |script| then |script| - pos else 0, |sizes|
  {
    hide SendAll, Drain;
    DrainTurn(script, pos, sizes);
    if sizes != [] {
      var r := SendAll(script, pos, sizes[0]);
      SendEndedBy(script, pos, sizes[0]);
      if r.status == Complete {
        DrainEndedBy(script, r.pos, sizes[1..]);
      } else if r.status == Blocked && r.sent > 0 {
        var left := [sizes[0] - r.sent] + sizes[1..];
        assert left[1..] == sizes[1..];
        DrainEndedBy(script, r.pos, left);
      }
    }
  }

  /** No answer is an error. */
  predicate Unbroken(script: seq<SendReply>) {
    forall i | 0 <= i < |script| :: script[i] != Failed && script[i] != Took(0)
  }

  lemma {:induction false} NeverBroken(script: seq<SendReply>, pos: nat, sizes: seq<nat>)
    requires Unbroken(script)
    ensures Drain(script, pos, sizes).status != Broken
  {
    hide Drain;
    DrainEndedBy(script, pos, sizes);
  }

  /** From `pos` on the socket takes something `n` times in a row. */
  ghost predicate Takes(script: seq<SendReply>, pos: nat, n: nat) {
    pos + n <= |script| && forall p | pos <= p < pos + n :: script[p].Took? && script[p].k > 0
  }

  lemma FewerTakes(script: seq<SendReply>, m: nat, n: nat)
    requires Takes(script, 0, m) && n <= m
    ensures Takes(script, 0, n)
  {
  }

  lemma {:induction false} SendTakes(script: seq<SendReply>, pos: nat, n: nat)
    requires Takes(script, pos, n)
    ensures var r := SendAll(script, pos, n); r.status == Complete && r.pos <= pos + n
    decreases n
  {
    if n == 0 {
    } else {
      var took := if script[pos].k <= n then script[pos].k else n;
      SendTakes(script, pos + 1, n - took);
    }
  }

  /** A socket that keeps taking bytes gets a whole drain. */
  lemma {:induction false} DrainTakes(script: seq<SendReply>, pos: nat, sizes: seq<nat>)
    requires Takes(script, pos, Total(sizes))
    ensures Drain(script, pos, sizes).status == Complete
    decreases |sizes|
  {
    if sizes == [] {
    } else {
      SendTakes(script, pos, sizes[0]);
      DrainTakes(script, SendAll(script, pos, sizes[0]).pos, sizes[1..]);
    }
  }

  class Pipe {
    /** The `S_WRITING` bit of `_state`. */
    var writing: bool
    /** Bytes the kernel has accepted on the current connection. */
    var wire: Bytes
    /** Answers of the `send` calls, and how many have been used. */
    var script: seq<SendReply>
    var pos: nat

    constructor ()
      ensures !writing && wire == [] && script == [] && pos == 0
    {
      writing, wire, script, pos := false, [], [], 0;
    }

    method Send(data: Bytes) returns (ret: int, again: bool)
      requires data != []
      modifies this`wire, this`pos
      ensures pos == old(pos) + 1
      ensures match Reply(script, old(pos))
              case Took(k) => ret == (if k <= |data| then k else |data|) && !again && wire == old(wire) + data[..ret]
              case WouldBlock => ret == -1 && again && wire == old(wire)
              case Failed => ret == -1 && !again && wire == old(wire)
    {
      var reply := Reply(script, pos);
      pos := pos + 1;
      match reply
      case Took(k) =>
        ret, again := if k <= |data| then k else |data|, false;
        wire := wire + data[..ret];
      case WouldBlock =>
        ret, again := -1, true;
      case Failed =>
        ret, again := -1, false;
    }

    /** `_do_write_data`: bytes written, or -1. A short count means the socket would block. */
    method WriteData(data: Bytes) returns (ret: int)
      modifies this`writing, this`wire, this`pos
      ensures var r := SendAll(script, old(pos), |data|);
              && wire == old(wire) + data[..r.sent] && pos == r.pos
              && ret == (if r.status == Broken then -1 else r.sent)
              && writing == (if r.status == Broken then old(writing) else r.status == Blocked)
    {
      var ofs := 0;
      while ofs < |data|
        invariant 0 <= ofs <= |data|
        invariant wire == old(wire) + data[..ofs]
        invariant writing == old(writing)
        invariant var r, s := SendAll(script, old(pos), |data|), SendAll(script, pos, |data| - ofs);
                  r == SendRun(ofs + s.sent, s.status, s.pos)
      {
        var n, again := Send(data[ofs..]);
        if n > 0 {
          TakeThenTake(old(wire), data, ofs, n);
          ofs := ofs + n;
        } else if n == -1 && again {
          writing := true;
          return ofs;
        } else {
          assert n <= 0 && data[ofs..][..0] == [];
          return -1;
        }
      }
      writing := false;
      return |data|;
    }
  }
}
