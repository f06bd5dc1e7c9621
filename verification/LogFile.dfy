/** The write-ahead log as a file of frames (`src/wal/record.rs`,
  * `src/wal/reader.rs`), cut at byte positions and rewritten in place
  * (`src/wal/writer.rs`).
  */
module LogFile {
  /** Length of the record that marks a checkpoint in the log. */
  const MARK_BYTES := 21

  type Bytes = n: int | 0 < n witness 1

  /** `Debris`: part of a frame, which recovery refuses to read. */
  datatype Frame = Record(id: nat, size: Bytes) | Mark | Debris(size: Bytes)

  function Size(f: Frame): Bytes {
    if f.Mark? then MARK_BYTES else f.size
  }

  function Length(log: seq<Frame>): nat {
    if log == [] then 0 else Size(log[0]) + Length(log[1..])
  }

  /** The file without its first `n` bytes; nothing if it is shorter. */
  function Cut(log: seq<Frame>, n: nat): seq<Frame> {
    if n == 0 || log == [] then log
    else if Size(log[0]) <= n then Cut(log[1..], n - Size(log[0]))
    else [Debris(Size(log[0]) - n)] + log[1..]
  }

  /** The first `n` bytes of the file. */
  function Take(log: seq<Frame>, n: nat): seq<Frame> {
    if n == 0 || log == [] then []
    else if Size(log[0]) <= n then [log[0]] + Take(log[1..], n - Size(log[0]))
    else [Debris(n)]
  }

  predicate Readable(log: seq<Frame>) {
    forall f :: f in log ==> !f.Debris?
  }

  function Ids(log: seq<Frame>): set<nat> {
    set f | f in log && f.Record? :: f.id
  }

  lemma IdsConcat(a: seq<Frame>, b: seq<Frame>)
    ensures Ids(a + b) == Ids(a) + Ids(b)
    ensures Readable(a + b) <==> Readable(a) && Readable(b)
  {
    assert forall f :: f in a + b <==> f in a || f in b;
    forall id | id in Ids(a) + Ids(b) ensures id in Ids(a + b) {
      var f :| (f in a || f in b) && f.Record? && f.id == id;
    }
  }

  function MaxId(log: seq<Frame>): (m: nat)
    ensures forall id :: id in Ids(log) ==> id <= m
    ensures m == 0 || m in Ids(log)
  {
    if log == [] then 0
    else
      assert log == [log[0]] + log[1..];
      IdsConcat([log[0]], log[1..]);
      assert log[0].Record? ==> log[0] in [log[0]];
      var m := MaxId(log[1..]);
      if log[0].Record? && m < log[0].id then log[0].id else m
  }

  lemma IdsOfBoth(a: seq<Frame>, b: seq<Frame>)
    ensures Ids(a + b) == Ids(a) + Ids(b)
    ensures Readable(a + b) <==> Readable(a) && Readable(b)
    ensures MaxId(a) <= MaxId(a + b)
  {
    IdsConcat(a, b);
  }

  lemma {:induction false} LengthOfBoth(a: seq<Frame>, b: seq<Frame>)
    ensures Length(a + b) == Length(a) + Length(b)
  {
    if a == [] {
      assert a + b == b;
    } else {
      assert (a + b)[1..] == a[1..] + b;
      LengthOfBoth(a[1..], b);
    }
  }

  lemma {:induction false} CutOfBoth(a: seq<Frame>, b: seq<Frame>, n: nat)
    ensures n <= Length(a) ==> Cut(a + b, n) == Cut(a, n) + b
    ensures n >= Length(a) ==> Cut(a, n) == [] && Cut(a + b, n) == Cut(b, n - Length(a))
  {
    if a == [] {
      assert a + b == b;
    } else {
      assert (a + b)[1..] == a[1..] + b;
      if 0 < n && Size(a[0]) <= n {
        CutOfBoth(a[1..], b, n - Size(a[0]));
      }
    }
  }

  lemma {:induction false} IdsOfCut(log: seq<Frame>, n: nat)
    ensures Ids(Cut(log, n)) <= Ids(log)
  {
    if n > 0 && log != [] {
      assert log == [log[0]] + log[1..];
      IdsOfBoth([log[0]], log[1..]);
      if Size(log[0]) <= n {
        IdsOfCut(log[1..], n - Size(log[0]));
      } else {
        IdsOfBoth([Debris(Size(log[0]) - n)], log[1..]);
        assert Ids([Debris(Size(log[0]) - n)]) == {};
      }
    }
  }

  /** A frame that begins at or after the cut stays. */
  lemma StaysInCut(before: seq<Frame>, f: Frame, after: seq<Frame>, n: nat)
    requires n <= Length(before)
    ensures f in Cut(before + ([f] + after), n)
  {
    CutOfBoth(before, [f] + after, n);
  }

  /** A frame that ends within the first `n` bytes is among them; one that only
    * begins there leaves debris. */
  lemma {:induction false} TakenOrDebris(before: seq<Frame>, f: Frame, after: seq<Frame>, n: nat)
    requires Length(before) < n
    ensures Length(before) + Size(f) <= n ==> f in Take(before + ([f] + after), n)
    ensures n < Length(before) + Size(f) ==> !Readable(Take(before + ([f] + after), n))
    decreases |before|
  {
    var log := before + ([f] + after);
    if before == [] {
      assert log == [f] + after && log[1..] == after;
      assert n < Size(f) ==> Debris(n) in Take(log, n);
    } else {
      assert log[1..] == before[1..] + ([f] + after);
      TakenOrDebris(before[1..], f, after, n - Size(before[0]));
    }
  }

  // ---------- rewriting the log in place ----------

  /** The file after `n` bytes of what follows position `at` in `log` were written
    * over its start, if `kept` was on disk until then. */
  function Overwritten(log: seq<Frame>, at: nat, kept: seq<Frame>, n: nat): seq<Frame> {
    Take(Cut(log, at), n) + Cut(kept, n)
  }

  lemma FrameKept(gone: seq<Frame>, stays: seq<Frame>, tail: seq<Frame>, tail': seq<Frame>, n: nat, i: nat)
    requires i < |stays| && Readable(Take(stays + tail, n))
    ensures stays[i] in Take(stays + tail, n) || stays[i] in Cut(gone + stays + tail', n)
  {
    hide Take, Cut, Readable, Length;
    var p, f, q := stays[..i], stays[i], stays[i + 1..];
    LengthOfBoth(gone, p);
    if n <= Length(p) {
      StaysInCut(gone + p, f, q + tail', n);
      assert gone + stays + tail' == (gone + p) + ([f] + (q + tail'));
    } else {
      TakenOrDebris(p, f, q + tail, n);
      assert stays + tail == p + ([f] + (q + tail));
    }
  }

  /** If it can be read, every record that was on disk after `at` is in it. */
  lemma OverwrittenKeeps(gone: seq<Frame>, stays: seq<Frame>, tail: seq<Frame>, tail': seq<Frame>, n: nat)
    requires Readable(Overwritten(gone + stays + tail, Length(gone), gone + stays + tail', n))
    ensures Ids(stays) <= Ids(Overwritten(gone + stays + tail, Length(gone), gone + stays + tail', n))
  {
    hide Take, Cut, Length;
    CutOfBoth(gone, stays + tail, Length(gone));
    assert gone + stays + tail == gone + (stays + tail);
    StartsWithAll(stays + tail);
    var new', old' := Take(stays + tail, n), Cut(gone + stays + tail', n);
    assert Overwritten(gone + stays + tail, Length(gone), gone + stays + tail', n) == new' + old';
    IdsConcat(new', old');
    forall id | id in Ids(stays) ensures id in Ids(new') || id in Ids(old') {
      var f :| f in stays && f.Record? && f.id == id;
      var i :| 0 <= i < |stays| && stays[i] == f;
      FrameKept(gone, stays, tail, tail', n, i);
    }
  }

  lemma StartsWithAll(log: seq<Frame>)
    ensures Cut(log, 0) == log
  {
  }

  /** A rewrite that is interrupted can leave a readable file: from the second
    * checkpoint on the log begins with a mark, as long as the one it keeps. */
  lemma InterruptedRewriteCanBeRead(log: seq<Frame>)
    requires log != [] && log[0] == Mark && Readable(log)
    ensures Overwritten(log + [Mark], Length(log), log + [Mark], MARK_BYTES) == log + [Mark]
  {
    var all := log + [Mark];
    CutOfBoth(log, [Mark], Length(log));
    assert Cut(all, Length(log)) == [Mark];
    assert Take([Mark], MARK_BYTES) == [Mark];
    assert all[0] == Mark && all == [Mark] + all[1..];
    assert Cut(all, MARK_BYTES) == all[1..];
  }
}
