// The receiver's database and its sessions, updated in place.
//
// Each method is proved against the functions of module Receiver. A transaction that is abandoned restores the
// tables as they were when it began.
module Storage {
  import opened Wrappers
  import opened Bytes
  import opened Stream
  import opened Sender
  import opened Receiver

  class Database {
    const st: Stream
    var tables: Tables

    ghost predicate Valid()
      reads this
    {
      StreamOk(st) && TablesOk(st, tables)
    }

    constructor (st: Stream)
      requires StreamOk(st)
      ensures Valid() && this.st == st && tables == EmptyTables(st)
    {
      this.st, this.tables := st, EmptyTables(st);
    }
  }

  lemma {:induction false} CheckAllFrom(st: Stream, es: seq<Event>, i: nat)
    requires i <= |es| && AllValid(st, es[..i])
    ensures CheckAll(st, es) == CheckAll(st, es[i..])
  {
    if i > 0 {
      assert es[..i][i - 1] == es[i - 1];
      assert AllValid(st, es[..i - 1]) by {
        assert forall k :: 0 <= k < i - 1 ==> es[..i - 1][k] == es[..i][k];
      }
      CheckAllFrom(st, es, i - 1);
      assert es[i - 1..][1..] == es[i..];
    } else {
      assert es[0..] == es;
    }
  }

  lemma {:induction false} PreparedFails(st: Stream, t: Tables, es: seq<Event>, chs: seq<Octets>, n: nat)
    requires |es| == |chs| && n <= |es| && IngestPrepared(st, t, es[..n], chs[..n]).Failure?
    ensures IngestPrepared(st, t, es, chs) == IngestPrepared(st, t, es[..n], chs[..n])
  {
    if n < |es| {
      var es0, chs0 := es[..|es| - 1], chs[..|chs| - 1];
      assert es0[..n] == es[..n] && chs0[..n] == chs[..n];
      PreparedFails(st, t, es0, chs0, n);
    } else {
      assert es[..n] == es && chs[..n] == chs;
    }
  }

  class Session {
    const st: Stream
    const db: Database

    // Owner generation under which this session may commit.
    var owner: nat

    constructor (db: Database)
      ensures this.db == db && this.st == db.st
    {
      this.st, this.db, this.owner := db.st, db, 0;
    }

    // Reconnect checks; success takes the stream over.
    method Connect(h: Hello) returns (r: Result<Ack, Code>)
      requires db.Valid() && st == db.st
      modifies this`owner, db`tables
      ensures db.Valid()
      ensures match Open(st, old(db.tables), h)
        case Failure(code) => r == Failure(code) && db.tables == old(db.tables) && owner == old(owner)
        case Success(t) => r == Success(AckOf(t)) && db.tables == t && owner == t.owner
    {
      var row := db.tables;
      if h.ack > h.tail || |h.ackHash| != 32 {
        return Failure(InvalidHandshake);
      }
      if row.head > h.tail {
        return Failure(SenderRollback);
      }
      if row.head < h.ack {
        return Failure(ReceiverRollback);
      }
      var remembered := st.genesis;
      if h.ack > 0 {
        // the event table has every sequence number up to the head
        FindRow(row.events, h.ack);
        remembered := Find(row.events, h.ack).value.chain;
      }
      if remembered != h.ackHash {
        return Failure(SplitLog);
      }
      OpenOk(st, row, h);
      owner := row.owner + 1;
      db.tables := row.(owner := owner);
      r := Success(AckOf(row));
    }

    method Charged(es: seq<Event>) returns (total: nat)
      ensures total == TotalCharge(es)
    {
      total := 0;
      for i := 0 to |es|
        invariant total == TotalCharge(es[..i])
      {
        assert es[..i + 1][..i] == es[..i];
        total := total + Charge(es[i]);
      }
      assert es[..|es|] == es;
    }

    method Checked(es: seq<Event>) returns (r: Result<(), Code>)
      ensures r == CheckAll(st, es)
    {
      for i := 0 to |es|
        invariant AllValid(st, es[..i])
      {
        CheckAllFrom(st, es, i);
        var c := st.check(es[i]);
        if c.Failure? {
          return Failure(c.error);
        }
        assert es[..i + 1] == es[..i] + [es[i]];
      }
      CheckAllFrom(st, es[..|es|], |es|);
      assert es[..|es|] == es;
      r := Success(());
    }

    // Chain hashes of consecutive events; None when the numbers are not consecutive.
    method Prepare(es: seq<Event>, first: int, previous: Octets) returns (chs: Option<seq<Octets>>)
      ensures chs == if Consecutive(es, first) then Some(Links(st, previous, es)) else None
    {
      var prev, links := previous, [];
      for i := 0 to |es|
        invariant Consecutive(es[..i], first)
        invariant links == Links(st, previous, es[..i])
        invariant prev == if i == 0 then previous else links[i - 1]
      {
        assert es[..i + 1][..i] == es[..i];
        if es[i].sequence != first + i {
          return None;
        }
        prev := st.link(prev, es[i]);
        links := links + [prev];
      }
      assert es[..|es|] == es;
      chs := Some(links);
    }

    // Commits the batch whole, or refuses it and changes nothing.
    method IngestBatch(b: Batch, windowEvents: nat, windowBytes: nat) returns (r: Result<Ack, Code>)
      requires db.Valid() && st == db.st
      modifies db`tables
      ensures db.Valid() && owner == old(owner)
      ensures match Ingest(st, old(db.tables), owner, b, windowEvents, windowBytes)
        case Failure(code) => r == Failure(code) && db.tables == old(db.tables)
        case Success(t) => r == Success(AckOf(t)) && db.tables == t
    {
      hide TablesOk, StreamOk, IngestOne, IngestPrepared, CheckAll, TotalCharge, Links, Consecutive;
      var es := b.events;
      if !(0 < |es| <= MAX_BATCH && |es| <= windowEvents) {
        return Failure(ResourceLimitExceeded);
      }
      var charged := Charged(es);
      if !(charged <= MAX_CHARGE && charged <= windowBytes) {
        return Failure(ResourceLimitExceeded);
      }
      if b.first != es[0].sequence {
        return Failure(SequenceGap);
      }
      var checked := Checked(es);
      if checked.Failure? {
        return Failure(checked.error);
      }
      var row := db.tables;
      if row.owner != owner {
        return Failure(StreamAlreadyActive);
      }
      var first := es[0].sequence;
      if first > row.head + 1 {
        return Failure(SequenceGap);
      }
      var prev := st.genesis;
      if first != 1 {
        var ancestor := Find(row.events, first - 1);
        if ancestor.None? {
          return Failure(RecoveryGap);
        }
        prev := ancestor.value.chain;
      }
      var prepared := Prepare(es, first, prev);
      if prepared.None? {
        return Failure(SequenceGap);
      }
      var chs := prepared.value;
      if chs[|chs| - 1] != b.terminal {
        return Failure(ChainMismatch);
      }
      assert Ingest(st, row, owner, b, windowEvents, windowBytes) == IngestPrepared(st, row, es, chs);
      var written := WriteRows(es, chs);
      if written.Failure? {
        return Failure(written.error);
      }
      IngestOverlays(st, row, owner, b, windowEvents, windowBytes);
      OverlaidOk(st, row, b.first, b.events, db.tables);
      r := Success(AckOf(db.tables));
    }

    // The transaction's writes: event and effect rows one by one, then the stream's row.
    method WriteRows(es: seq<Event>, chs: seq<Octets>) returns (r: Result<(), Code>)
      requires |es| == |chs|
      modifies db`tables
      ensures match IngestPrepared(st, old(db.tables), es, chs)
        case Failure(code) => r == Failure(code) && db.tables == old(db.tables)
        case Success(t) => r == Success(()) && db.tables == t
    {
      hide IngestPrepared;
      var row := db.tables;
      var head, digest, last, floor := row.head, row.chain, row.lastTime, row.checkpoint;
      PreparedNone(st, row, es, chs);
      for i := 0 to |es|
        invariant IngestPrepared(st, row, es[..i], chs[..i])
               == Success(db.tables.(head := head, chain := digest, lastTime := last, checkpoint := floor))
      {
        var e, ch := es[i], chs[i];
        PreparedNext(st, row, es, chs, i);
        ghost var t := db.tables.(head := head, chain := digest, lastTime := last, checkpoint := floor);
        if IngestOne(st, t, e, ch).Failure? {
          PreparedFails(st, row, es, chs, i + 1);
        }
        if e.sequence <= head {
          var stored := Find(db.tables.events, e.sequence);
          if stored.None? || stored.value.event != e || stored.value.chain != ch {
            db.tables := row;
            return Failure(EventIdentityMismatch);
          }
        } else {
          var boundary := st.check(e);
          if boundary.Failure? {
            db.tables := row;
            return Failure(boundary.error);
          }
          if e.sequence != head + 1 {
            db.tables := row;
            return Failure(SequenceGap);
          }
          if !(e.time >= last && e.time > floor && boundary.value >= floor) {
            db.tables := row;
            return Failure(CheckpointBackdatedEvent);
          }
          if RelayTaken(db.tables, e.relay) {
            db.tables := row;
            return Failure(EventIdentityMismatch);
          }
          db.tables := db.tables.(events := db.tables.events + [EventRow(e.sequence, e, ch)]);
          db.tables := db.tables.(effects := db.tables.effects + [EffectRow(e.sequence, boundary.value)]);
          head, digest, last, floor := e.sequence, ch, e.time, boundary.value;
        }
      }
      assert es[..|es|] == es && chs[..|chs|] == chs;
      db.tables := db.tables.(head := head, chain := digest, lastTime := last, checkpoint := floor);
      r := Success(());
    }
  }

  lemma PreparedNone(st: Stream, t: Tables, es: seq<Event>, chs: seq<Octets>)
    requires |es| == |chs|
    ensures IngestPrepared(st, t, es[..0], chs[..0]) == Success(t)
  {
  }

  lemma OverlaidOk(st: Stream, t: Tables, first: int, es: seq<Event>, t': Tables)
    requires Overlaid(st, t, first, es, t')
    ensures TablesOk(st, t')
  {
  }
}
