/** Bytes, big-endian 32-bit words and the fixed-width arithmetic the sources rely on. */
module Bytes {

  datatype Option<T> = None | Some(value: T)

  type byte = x: int | 0 <= x < 256

  type Bytes = seq<byte>

  const TWO_31: int := 0x8000_0000
  const TWO_32: int := 0x1_0000_0000

  type int32 = x: int | -TWO_31 <= x < TWO_31

  /** What a `uint32_t` holds after an arithmetic operation with result `x`. */
  function Wrap32(x: int): (r: nat)
    ensures r < TWO_32
    ensures 0 <= x < TWO_32 ==> r == x
  {
    x % TWO_32
  }

  /** The value of a `uint32_t` reinterpreted as an `int32_t`. */
  function AsInt32(x: nat): (r: int)
    requires x < TWO_32
    ensures -TWO_31 <= r < TWO_31
  {
    if x < TWO_31 then x else x - TWO_32
  }

  /** A 32-bit word keeps a number up to multiples of 2^32, and one that fits as it is. */
  lemma Words32(x: int)
    ensures (x - Wrap32(x)) % TWO_32 == 0 && (x - AsInt32(Wrap32(x))) % TWO_32 == 0
    ensures -TWO_31 <= x < TWO_31 ==> AsInt32(Wrap32(x)) == x
  {
    var q := x / TWO_32;
    assert x - Wrap32(x) == TWO_32 * q;
    Rounds(q);
    Rounds(q + 1);
  }

  lemma Rounds(q: int)
    ensures TWO_32 * q % TWO_32 == 0
  {
  }

  /** An `int32` counter that starts at 1, after `n` increments. */
  function Nth(n: nat): (r: int)
    ensures -TWO_31 <= r < TWO_31
  {
    AsInt32(Wrap32(n + 1))
  }

  lemma NthNext(n: nat)
    ensures Nth(n + 1) == AsInt32(Wrap32(Nth(n) + 1))
  {
  }

  /** Its values repeat exactly when it has gone round. */
  lemma NthRepeats(m: nat, n: nat)
    ensures Nth(m) == Nth(n) <==> (m - n) % TWO_32 == 0
  {
    assert Nth(m) == Nth(n) <==> Wrap32(m + 1) == Wrap32(n + 1) by {
      hide Wrap32;
    }
    SameRemainder(m + 1, n + 1);
  }

  lemma SameRemainder(a: nat, b: nat)
    ensures a % TWO_32 == b % TWO_32 <==> (a - b) % TWO_32 == 0
  {
    var d := a % TWO_32 - b % TWO_32;
    assert a - b == TWO_32 * (a / TWO_32 - b / TWO_32) + d;
  }

  /** `htonl` / `binary.BigEndian.PutUint32`. */
  function PutBE32(x: nat): (r: Bytes)
    requires x < TWO_32
    ensures |r| == 4
  {
    [x / 256 / 256 / 256, x / 256 / 256 % 256, x / 256 % 256, x % 256]
  }

  /** `ntohl` / `binary.BigEndian.Uint32` of the four bytes starting at `at`. */
  function GetBE32(s: Bytes, at: nat): (r: nat)
    requires at + 4 <= |s|
    ensures r < TWO_32
  {
    Word(s[at], s[at + 1], s[at + 2], s[at + 3])
  }

  function Word(a: int, b: int, c: int, d: int): (r: int)
    ensures 0 <= a < 256 && 0 <= b < 256 && 0 <= c < 256 && 0 <= d < 256 ==> 0 <= r < TWO_32
  {
    ((a * 256 + b) * 256 + c) * 256 + d
  }

  lemma GetAfterPut(x: nat, s: Bytes, at: nat)
    requires x < TWO_32
    requires at + 4 <= |s| && s[at..at + 4] == PutBE32(x)
    ensures GetBE32(s, at) == x
  {
    var p := s[at..at + 4];
    assert p[0] == s[at] && p[1] == s[at + 1] && p[2] == s[at + 2] && p[3] == s[at + 3];
  }

  lemma GetFrom(s: Bytes, at: nat, k: nat)
    requires at + k + 4 <= |s|
    ensures GetBE32(s[at..], k) == GetBE32(s, at + k)
  {
  }

  lemma PutAfterGet(s: Bytes, at: nat)
    requires at + 4 <= |s|
    ensures PutBE32(GetBE32(s, at)) == s[at..at + 4]
  {
    var x := GetBE32(s, at);
    assert x / 256 == (s[at] as int * 256 + s[at + 1]) * 256 + s[at + 2];
    assert x / 256 / 256 == s[at] as int * 256 + s[at + 1];
    assert x / 256 / 256 / 256 == s[at];
  }

  lemma Assoc<T>(a: seq<T>, b: seq<T>, c: seq<T>)
    ensures (a + b) + c == a + (b + c)
  {
  }

  lemma Regroup<T>(a: seq<T>, b: seq<T>, c: seq<T>, d: seq<T>)
    ensures ((a + b) + c) + d == a + (b + (c + d)) && ((a + b) + c) + d == a + ((b + c) + d)
  {
  }

  lemma TakeMore<T>(pre: seq<T>, s: seq<T>, i: nat, j: nat)
    requires i <= j <= |s|
    ensures (pre + s[..i]) + s[i..j] == pre + s[..j]
  {
    assert s[..i] + s[i..j] == s[..j];
  }

  lemma TakeThenTake<T>(pre: seq<T>, s: seq<T>, i: nat, n: nat)
    requires i + n <= |s|
    ensures (pre + s[..i]) + s[i..][..n] == pre + s[..i + n]
  {
    assert s[..i] + s[i..][..n] == s[..i + n];
  }

  lemma DropThenDrop<T>(s: seq<T>, i: nat, n: nat)
    requires i + n <= |s|
    ensures s[i..][n..] == s[i + n..]
  {
  }

  lemma TakeThenDrop<T>(pre: seq<T>, s: seq<T>, i: nat)
    requires i <= |s|
    ensures (pre + s[..i]) + s[i..] == pre + s && s[..|s|] == s
  {
    assert s[..i] + s[i..] == s;
  }

  /** How many bytes one `recv` or `Read` yields: at least one, at most what fits and what is there. */
  function PieceSize(cuts: seq<nat>, i: nat, room: nat, available: nat): (n: nat)
    requires room > 0 && available > 0
    ensures 0 < n <= room && n <= available
  {
    var cut := if i < |cuts| && cuts[i] > 0 then cuts[i] else 1;
    if cut <= room && cut <= available then cut else if room <= available then room else available
  }

  /** A `recv` or `Read` into the free part of a buffer. */
  method Fill(buf: array<byte>, at: nat, piece: Bytes)
    requires at + |piece| <= buf.Length
    modifies buf
    ensures forall from | 0 <= from <= at :: buf[from..at + |piece|] == old(buf[from..at]) + piece
  {
    forall k | 0 <= k < |piece| {
      buf[at + k] := piece[k];
    }
  }

  /** `memmove` or `copy` of a part of a buffer to its front. */
  method Compact(buf: array<byte>, from: nat, to: nat)
    requires from <= to <= buf.Length
    modifies buf
    ensures buf[0..to - from] == old(buf[from..to])
  {
    forall k | 0 <= k < to - from {
      buf[k] := buf[from + k];
    }
  }
}
