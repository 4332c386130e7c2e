/** A byte stream that arrives in pieces: each read returns the next piece, and nothing more once they are used up. */
module Streams {
  import opened Common

  type Byte = b: int | 0 <= b < 256

  const NEWLINE: Byte := 10

  function FindNewline(s: seq<Byte>): (r: Option<nat>)
    ensures r.Some? ==> r.value < |s| && s[r.value] == NEWLINE && NEWLINE !in s[..r.value]
    ensures r.None? ==> NEWLINE !in s
  {
    if s == [] then None
    else if s[0] == NEWLINE then Some(0)
    else match FindNewline(s[1..])
         case None => None
         case Some(i) => assert s[..i + 1] == [s[0]] + s[1..][..i]; Some(i + 1)
  }

  lemma {:induction false} FindInParts(a: seq<Byte>, b: seq<Byte>)
    ensures FindNewline(a + b) ==
              if FindNewline(a).Some? then FindNewline(a)
              else match FindNewline(b) case None => None case Some(i) => Some(|a| + i)
  {
    if a == [] {
      assert a + b == b;
    } else {
      assert (a + b)[1..] == a[1..] + b;
      FindInParts(a[1..], b);
    }
  }

  lemma Absent(line: seq<Byte>)
    requires NEWLINE !in line
    ensures FindNewline(line).None?
  {
  }

  /** Appending changes no slice of what was there. */
  lemma SliceStays<T>(b: seq<T>, more: seq<T>, lo: nat, hi: nat)
    requires lo <= hi <= |b|
    ensures (b + more)[lo..hi] == b[lo..hi]
  {
  }

  lemma DropStays<T>(b: seq<T>, more: seq<T>, n: nat)
    requires n <= |b|
    ensures (b + more)[n..] == b[n..] + more
  {
  }

  function Flat(pieces: seq<seq<Byte>>): seq<Byte> {
    if pieces == [] then [] else pieces[0] + Flat(pieces[1..])
  }

  lemma {:induction false} FlatConcat(a: seq<seq<Byte>>, b: seq<seq<Byte>>)
    ensures Flat(a + b) == Flat(a) + Flat(b)
  {
    if a == [] {
      assert a + b == b;
    } else {
      assert (a + b)[1..] == a[1..] + b;
      FlatConcat(a[1..], b);
      assert a[0] + (Flat(a[1..]) + Flat(b)) == (a[0] + Flat(a[1..])) + Flat(b);
    }
  }

  lemma FlatSplit(pieces: seq<seq<Byte>>, k: nat)
    requires k <= |pieces|
    ensures Flat(pieces) == Flat(pieces[..k]) + Flat(pieces[k..])
    ensures k < |pieces| ==> Flat(pieces[..k + 1]) == Flat(pieces[..k]) + pieces[k]
  {
    assert pieces == pieces[..k] + pieces[k..];
    FlatConcat(pieces[..k], pieces[k..]);
    if k < |pieces| {
      assert pieces[..k + 1] == pieces[..k] + [pieces[k]];
      var one: seq<seq<Byte>> := [pieces[k]];
      FlatConcat(pieces[..k], one);
      assert one[1..] == [];
      assert Flat(one) == pieces[k];
    }
  }

  /** No read but the last, at the end of the stream, comes back empty. */
  predicate Filled(pieces: seq<seq<Byte>>) {
    forall i | 0 <= i < |pieces| :: pieces[i] != []
  }

  /** Some read, the first one included, ended exactly `at` bytes into the stream. */
  ghost predicate EndsRead(initial: seq<Byte>, pieces: seq<seq<Byte>>, at: nat) {
    exists k :: 0 <= k <= |pieces| && |initial| + |Flat(pieces[..k])| == at
  }

  /** The near end of a connection: the reads still to come and the bytes sent back. */
  class Connection {
    var incoming: seq<seq<Byte>>
    var replies: seq<Byte>

    constructor (incoming: seq<seq<Byte>>)
      ensures this.incoming == incoming && replies == []
    {
      this.incoming, replies := incoming, [];
    }

    method Read() returns (piece: seq<Byte>)
      modifies this`incoming
      ensures if old(incoming) == [] then piece == [] && incoming == []
              else piece == old(incoming)[0] && incoming == old(incoming)[1..]
      ensures Filled(old(incoming)) ==> Filled(incoming) && (piece == [] ==> old(incoming) == [])
    {
      if incoming == [] {
        return [];
      }
      piece, incoming := incoming[0], incoming[1..];
    }

    method Reply(bytes: seq<Byte>)
      modifies this`replies
      ensures replies == old(replies) + bytes
    {
      replies := replies + bytes;
    }

    /** Reads until `need` bytes are buffered or the stream ends. */
    method Fill(buffered: seq<Byte>, need: nat) returns (buf: seq<Byte>, ghost k: nat)
      requires Filled(incoming)
      modifies this`incoming
      ensures k <= |old(incoming)| && incoming == old(incoming)[k..] && buf == buffered + Flat(old(incoming)[..k])
      ensures Filled(incoming) && (|buf| < need ==> incoming == [])
      ensures forall j | 0 <= j < k :: |buffered| + |Flat(old(incoming)[..j])| < need
    {
      buf, k := buffered, 0;
      while |buf| < need
        invariant Filled(incoming) && k <= |old(incoming)| && incoming == old(incoming)[k..]
        invariant buf == buffered + Flat(old(incoming)[..k])
        invariant forall j | 0 <= j < k :: |buffered| + |Flat(old(incoming)[..j])| < need
        decreases |incoming|
      {
        var more := Read();
        if more == [] {
          return;
        }
        FlatSplit(old(incoming), k);
        buf, k := buf + more, k + 1;
      }
    }
  }
}
