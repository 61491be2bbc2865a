/**
 `RamStorage`, the in-memory storage a consensus node keeps: the replicated
 log, the current term and vote, the installed snapshot (its bytes and the
 index and term of the last entry it covers) and the buffer in which a
 snapshot arriving in chunks is reassembled.
 */
module Storage {
  import opened Wrappers
  import opened Bytes
  import opened RaftTypes
  import StateMachine

  // ---------------------------------------------------------------- chunk buffer

  /** `n` zero bytes. */
  function Zeros(n: nat): (r: seq<byte>)
    ensures |r| == n
    ensures forall i :: 0 <= i < n ==> r[i] == 0
  {
    seq(n, _ => 0)
  }

  /** `Vec::resize_with(n, || 0)`: cuts the buffer to `n` bytes, or pads it with zeros up to `n`. */
  function Resized(s: seq<byte>, n: nat): (r: seq<byte>)
    ensures |r| == n
  {
    if n <= |s| then s[..n] else s + Zeros(n - |s|)
  }

  /** The resized buffer keeps the bytes it had below `n` and is zero from its old end on. */
  lemma ResizedLayout(s: seq<byte>, n: nat)
    ensures forall i :: 0 <= i < n && i < |s| ==> Resized(s, n)[i] == s[i]
    ensures forall i :: |s| <= i < n ==> Resized(s, n)[i] == 0
  {
  }

  /** The chunk buffer after `add_new_snapshot_chunk(offset, data)`. */
  function WriteChunk(buf: seq<byte>, offset: nat, data: seq<byte>): (r: seq<byte>)
    ensures |r| == offset + |data|
  {
    Resized(buf, offset) + data
  }

  /**
   After a chunk write the bytes before `offset` are kept, a gap up to
   `offset` is zero-filled, `data` follows, and whatever the buffer held
   beyond `offset + |data|` is gone.
   */
  lemma WriteChunkLayout(buf: seq<byte>, offset: nat, data: seq<byte>)
    ensures forall i :: 0 <= i < offset && i < |buf| ==> WriteChunk(buf, offset, data)[i] == buf[i]
    ensures forall i :: |buf| <= i < offset ==> WriteChunk(buf, offset, data)[i] == 0
    ensures WriteChunk(buf, offset, data)[offset..] == data
  {
    ResizedLayout(buf, offset);
    var r := WriteChunk(buf, offset, data);
    forall i | 0 <= i < offset
      ensures r[i] == Resized(buf, offset)[i]
    {
    }
  }

  /** Writing the same chunk twice leaves the buffer as writing it once. */
  lemma WriteChunkIdempotent(buf: seq<byte>, offset: nat, data: seq<byte>)
    ensures WriteChunk(WriteChunk(buf, offset, data), offset, data) == WriteChunk(buf, offset, data)
  {
    var once := WriteChunk(buf, offset, data);
    assert Resized(once, offset) == once[..offset];
    assert once[..offset] == Resized(buf, offset);
  }

  /** A chunk at offset 0 starts the transfer over: the buffer becomes that chunk alone. */
  lemma WriteChunkRestart(buf: seq<byte>, data: seq<byte>)
    ensures WriteChunk(buf, 0, data) == data
  {
    assert Resized(buf, 0) == [];
  }

  /** Writing within or at the end of the buffer keeps the bytes before `offset` and appends. */
  lemma WriteChunkInside(buf: seq<byte>, offset: nat, data: seq<byte>)
    requires offset <= |buf|
    ensures WriteChunk(buf, offset, data) == buf[..offset] + data
  {
  }

  /** One `add_new_snapshot_chunk` call: a byte run and the offset it goes to. */
  datatype Chunk = Chunk(offset: nat, data: seq<byte>)

  /** The buffer after the chunks are written in the order given. */
  function DeliverAll(buf: seq<byte>, chunks: seq<Chunk>): seq<byte>
    decreases |chunks|
  {
    if chunks == [] then buf else DeliverAll(WriteChunk(buf, chunks[0].offset, chunks[0].data), chunks[1..])
  }

  /** `s` cut into consecutive chunks of `size` bytes (the last may be shorter), the first at offset `base`. */
  function ChunksOf(s: seq<byte>, size: nat, base: nat): seq<Chunk>
    requires size > 0
    decreases |s|
  {
    if |s| <= size then (if s == [] then [] else [Chunk(base, s)])
    else [Chunk(base, s[..size])] + ChunksOf(s[size..], size, base + size)
  }

  /** Chunk `c` is non-empty, at most `size` long, and holds the bytes of `s` at its own offset, counted from `base`. */
  predicate ChunkOf(c: Chunk, s: seq<byte>, size: nat, base: nat)
  {
    && base <= c.offset
    && 0 < |c.data| <= size
    && c.offset + |c.data| <= base + |s|
    && c.data == s[c.offset - base .. c.offset - base + |c.data|]
  }

  /** Every chunk `ChunksOf` cuts is a chunk of `s`. */
  lemma {:induction false} ChunksOfCover(s: seq<byte>, size: nat, base: nat, i: nat)
    requires size > 0 && i < |ChunksOf(s, size, base)|
    ensures ChunkOf(ChunksOf(s, size, base)[i], s, size, base)
    decreases |s|
  {
    var cs := ChunksOf(s, size, base);
    if |s| <= size {
      assert cs == [Chunk(base, s)];
      assert s[0..|s|] == s;
    } else {
      var tail := ChunksOf(s[size..], size, base + size);
      assert cs == [Chunk(base, s[..size])] + tail;
      if i == 0 {
        assert s[0..size] == s[..size];
      } else {
        assert cs[i] == tail[i - 1];
        ChunksOfCover(s[size..], size, base + size, i - 1);
        ChunkOfDrop(tail[i - 1], s, size, base);
      }
    }
  }

  /** A chunk of the bytes after the first `size` is a chunk of the whole. */
  lemma ChunkOfDrop(c: Chunk, s: seq<byte>, size: nat, base: nat)
    requires size <= |s| && ChunkOf(c, s[size..], size, base + size)
    ensures ChunkOf(c, s, size, base)
  {
    var lo := c.offset - base - size;
    assert s[size..][lo .. lo + |c.data|] == s[size + lo .. size + lo + |c.data|];
  }

  /**
   Chunks delivered in offset order rebuild the bytes they were cut from,
   after whatever the buffer held before the first of them.
   */
  lemma {:induction false} DeliverInOrder(buf: seq<byte>, s: seq<byte>, size: nat, base: nat)
    requires size > 0 && base <= |buf| && s != []
    ensures DeliverAll(buf, ChunksOf(s, size, base)) == buf[..base] + s
    decreases |s|
  {
    if |s| <= size {
      DeliverLast(buf, s, size, base);
    } else {
      var prefix := buf[..base];
      var first := prefix + s[..size];
      var rest := ChunksOf(s[size..], size, base + size);
      assert DeliverAll(buf, ChunksOf(s, size, base)) == DeliverAll(first, rest) by {
        DeliverFirst(buf, s, size, base);
      }
      assert DeliverAll(first, rest) == first[..base + size] + s[size..] by {
        DeliverInOrder(first, s[size..], size, base + size);
      }
      Rejoin(prefix, s, size, base);
    }
  }

  /** Delivering a single remaining chunk. */
  lemma DeliverLast(buf: seq<byte>, s: seq<byte>, size: nat, base: nat)
    requires size > 0 && base <= |buf| && 0 < |s| <= size
    ensures DeliverAll(buf, ChunksOf(s, size, base)) == buf[..base] + s
  {
    assert ChunksOf(s, size, base) == [Chunk(base, s)];
    WriteChunkInside(buf, base, s);
  }

  lemma Rejoin(p: seq<byte>, s: seq<byte>, size: nat, base: nat)
    requires size <= |s| && |p| == base
    ensures (p + s[..size])[..base + size] + s[size..] == p + s
  {
    assert (p + s[..size])[..|p| + size] == p + s[..size];
    assert s[..size] + s[size..] == s;
  }

  /** Delivering the first of several chunks. */
  lemma DeliverFirst(buf: seq<byte>, s: seq<byte>, size: nat, base: nat)
    requires size > 0 && base <= |buf| && |s| > size
    ensures DeliverAll(buf, ChunksOf(s, size, base))
         == DeliverAll(buf[..base] + s[..size], ChunksOf(s[size..], size, base + size))
  {
    var cs := ChunksOf(s, size, base);
    assert cs[0] == Chunk(base, s[..size]);
    assert cs[1..] == ChunksOf(s[size..], size, base + size);
    WriteChunkInside(buf, base, s[..size]);
  }

  /** A whole snapshot sent in chunks from offset 0, in order, arrives intact whatever the buffer held. */
  lemma TransferInOrder(buf: seq<byte>, s: seq<byte>, size: nat)
    requires size > 0 && s != []
    ensures DeliverAll(buf, ChunksOf(s, size, 0)) == s
  {
    DeliverInOrder(buf, s, size, 0);
  }

  /**
   The same two chunks delivered out of order lose the later bytes: the
   write at offset 0 truncates the buffer behind it, so reassembly depends
   on delivery order.
   */
  lemma OutOfOrderDeliveryTruncates()
    ensures DeliverAll([], [Chunk(0, [1, 2]), Chunk(2, [3, 4])]) == [1, 2, 3, 4]
    ensures DeliverAll([], [Chunk(2, [3, 4]), Chunk(0, [1, 2])]) == [1, 2]
  {
    var inOrder := [Chunk(0, [1, 2]), Chunk(2, [3, 4])];
    assert inOrder[1..] == [Chunk(2, [3, 4])];
    assert WriteChunk([], 0, [1, 2]) == [1, 2] by { WriteChunkRestart([], [1, 2]); }
    assert WriteChunk([1, 2], 2, [3, 4]) == [1, 2, 3, 4] by { WriteChunkInside([1, 2], 2, [3, 4]); }
    var outOfOrder := [Chunk(2, [3, 4]), Chunk(0, [1, 2])];
    assert outOfOrder[1..] == [Chunk(0, [1, 2])];
    assert WriteChunk(WriteChunk([], 2, [3, 4]), 0, [1, 2]) == [1, 2] by {
      WriteChunkRestart(WriteChunk([], 2, [3, 4]), [1, 2]);
    }
  }

  // ---------------------------------------------------------------- log

  /** The entry at `i` is the last `Config` entry of `log`. */
  predicate IsLastConfig<Cmd, Cfg>(log: seq<LogEntry<Cmd, Cfg>>, i: nat)
  {
    i < |log| && log[i].IsConfig() && forall j :: i < j < |log| ==> !log[j].IsConfig()
  }

  /** No entry of `log` is a `Config` entry. */
  predicate NoConfig<Cmd, Cfg>(log: seq<LogEntry<Cmd, Cfg>>)
  {
    forall j :: 0 <= j < |log| ==> !log[j].IsConfig()
  }

  // ---------------------------------------------------------------- RamStorage

  /**
   The storage of one node. `encode` and `decode` are the byte codec of the
   replicated state machine (`write_bytes` and `try_from_bytes`), which the
   consensus library defines; they are fixed when the storage is created.
   */
  class RamStorage<S, Cmd, Cfg, Ids> {
    var log: seq<LogEntry<Cmd, Cfg>>
    var currentTerm: u32
    var votedFor: Option<u32>
    var snapshotBytes: seq<byte>
    var snapshotLastIndex: u32
    var snapshotLastTerm: u32
    var snapshotChunkBytes: seq<byte>
    const initStateMachine: RaftStateMachine<S, Cfg, Ids>
    const encode: RaftStateMachine<S, Cfg, Ids> -> seq<byte>
    const decode: seq<byte> -> Option<RaftStateMachine<S, Cfg, Ids>>

    /** The persistent vote record. */
    ghost function TermVote(): (u32, Option<u32>)
      reads this
    {
      (currentTerm, votedFor)
    }

    /** The installed snapshot: its bytes, last index and last term. */
    ghost function Installed(): (seq<byte>, u32, u32)
      reads this
    {
      (snapshotBytes, snapshotLastIndex, snapshotLastTerm)
    }

    /** `RamStorage::new`: nothing logged, no vote, term 0 and no snapshot. */
    constructor (init: RaftStateMachine<S, Cfg, Ids>,
                 encode: RaftStateMachine<S, Cfg, Ids> -> seq<byte>,
                 decode: seq<byte> -> Option<RaftStateMachine<S, Cfg, Ids>>)
      ensures log == [] && currentTerm == 0 && votedFor == None
      ensures snapshotBytes == [] && snapshotLastIndex == 0 && snapshotLastTerm == 0
      ensures snapshotChunkBytes == []
      ensures initStateMachine == init && this.encode == encode && this.decode == decode
    {
      log := [];
      currentTerm := 0;
      votedFor := None;
      snapshotBytes := [];
      snapshotLastIndex := 0;
      snapshotLastTerm := 0;
      snapshotChunkBytes := [];
      initStateMachine := init;
      this.encode := encode;
      this.decode := decode;
    }

    /** `add_log_entry`: appends one entry. */
    method AddLogEntry(entry: LogEntry<Cmd, Cfg>)
      modifies this
      ensures log == old(log) + [entry]
      ensures |log| == |old(log)| + 1 && LogEntry(|log| - 1) == Some(entry)
      ensures TermVote() == old(TermVote()) && Installed() == old(Installed())
      ensures snapshotChunkBytes == old(snapshotChunkBytes)
    {
      log := log + [entry];
    }

    /** `remove_log_entries_before`: drops the entries `[0, index)`; an index past the end panics. */
    method RemoveLogEntriesBefore(index: nat)
      requires index <= |log|
      modifies this
      ensures log == old(log)[index..]
      ensures forall i :: 0 <= i < |log| ==> log[i] == old(log)[index + i]
      ensures index == 0 ==> log == old(log)
      ensures TermVote() == old(TermVote()) && Installed() == old(Installed())
      ensures snapshotChunkBytes == old(snapshotChunkBytes)
    {
      log := log[index..];
    }

    /** `remove_log_entries_starting_at`: drops the entries `[index, end)`; an index past the end panics. */
    method RemoveLogEntriesStartingAt(index: nat)
      requires index <= |log|
      modifies this
      ensures log == old(log)[..index]
      ensures old(log) == log + old(log)[index..]
      ensures index == |old(log)| ==> log == old(log)
      ensures TermVote() == old(TermVote()) && Installed() == old(Installed())
      ensures snapshotChunkBytes == old(snapshotChunkBytes)
    {
      log := log[..index];
    }

    /** `log_entry`: the entry at `index`, if there is one. */
    function LogEntry(index: nat): (r: Option<LogEntry<Cmd, Cfg>>)
      reads this
      ensures r.Some? <==> index < |log|
      ensures r.Some? ==> r.value == log[index]
    {
      if index < |log| then Some(log[index]) else None
    }

    /** `log_entries`: the entries from `start` on; a start past the end panics. */
    function LogEntries(start: nat): (r: seq<LogEntry<Cmd, Cfg>>)
      reads this
      requires start <= |log|
      ensures log[..start] + r == log
      ensures |r| == |log| - start
      ensures forall i :: 0 <= i < |r| ==> LogEntry(start + i) == Some(r[i])
    {
      log[start..]
    }

    /** `num_log_entries`: every index below it holds an entry and it is the first that does not. */
    function NumLogEntries(): (r: nat)
      reads this
      ensures forall i :: 0 <= i < r ==> LogEntry(i).Some?
      ensures LogEntry(r).None?
    {
      |log|
    }

    /** `get_index_of_last_config_in_log`: the entries are searched from the back for a `Config`. */
    method GetIndexOfLastConfigInLog() returns (r: Option<nat>)
      ensures r.Some? ==> IsLastConfig(log, r.value)
      ensures r.None? <==> NoConfig(log)
    {
      var i := |log|;
      while i > 0
        invariant 0 <= i <= |log|
        invariant forall j :: i <= j < |log| ==> !log[j].IsConfig()
      {
        i := i - 1;
        if log[i].IsConfig() {
          return Some(i);
        }
      }
      return None;
    }

    /** `set_snapshot`: records the index and term and replaces the bytes by the encoded state machine. */
    method SetSnapshot(lastIndex: u32, lastTerm: u32, snapshot: RaftStateMachine<S, Cfg, Ids>)
      modifies this
      ensures SnapshotLastIndex() == lastIndex && SnapshotLastTerm() == lastTerm
      ensures snapshotBytes == encode(snapshot) && TotalSnapshotBytes() == |encode(snapshot)| % U32_LIMIT
      ensures decode(encode(snapshot)) == Some(snapshot) ==> Snapshot() == snapshot
      ensures log == old(log) && TermVote() == old(TermVote())
      ensures snapshotChunkBytes == old(snapshotChunkBytes)
    {
      snapshotLastIndex := lastIndex;
      snapshotLastTerm := lastTerm;
      snapshotBytes := [];
      snapshotBytes := snapshotBytes + encode(snapshot);
    }

    /** `snapshot`: the installed bytes decoded, or a copy of the initial state machine when they do not decode. */
    function Snapshot(): (r: RaftStateMachine<S, Cfg, Ids>)
      reads this
      ensures decode(snapshotBytes).Some? ==> r == decode(snapshotBytes).value
      ensures decode(snapshotBytes).None? ==> r == initStateMachine
    {
      match decode(snapshotBytes)
      case Some(sm) => sm
      case None => StateMachine.CloneStateMachine(initStateMachine)
    }

    /** `snapshot_last_index`. */
    function SnapshotLastIndex(): u32
      reads this
    {
      snapshotLastIndex
    }

    /** `snapshot_last_term`. */
    function SnapshotLastTerm(): u32
      reads this
    {
      snapshotLastTerm
    }

    /** `add_new_snapshot_chunk`: writes `data` at `offset` of the reassembly buffer, cutting off what lay beyond. */
    method AddNewSnapshotChunk(offset: u32, data: seq<byte>)
      modifies this
      ensures snapshotChunkBytes == WriteChunk(old(snapshotChunkBytes), offset, data)
      ensures |snapshotChunkBytes| == offset + |data|
      ensures forall i :: 0 <= i < offset && i < |old(snapshotChunkBytes)| ==> snapshotChunkBytes[i] == old(snapshotChunkBytes)[i]
      ensures forall i :: |old(snapshotChunkBytes)| <= i < offset ==> snapshotChunkBytes[i] == 0
      ensures snapshotChunkBytes[offset..] == data
      ensures log == old(log) && TermVote() == old(TermVote()) && Installed() == old(Installed())
    {
      WriteChunkLayout(snapshotChunkBytes, offset, data);
      snapshotChunkBytes := Resized(snapshotChunkBytes, offset);
      snapshotChunkBytes := snapshotChunkBytes[..offset] + data;
    }

    /**
     `try_use_chunks_as_new_snapshot` as written: when the buffer decodes it
     becomes the installed snapshot, but the decoded value is discarded and
     the result is always `None`.
     */
    method TryUseChunksAsNewSnapshot(lastIndex: u32, lastTerm: u32) returns (r: Option<RaftStateMachine<S, Cfg, Ids>>)
      modifies this
      ensures r == None
      ensures decode(old(snapshotChunkBytes)).Some? ==>
        && Installed() == (old(snapshotChunkBytes), lastIndex, lastTerm)
        && snapshotChunkBytes == []
        && Snapshot() == decode(old(snapshotChunkBytes)).value
      ensures decode(old(snapshotChunkBytes)).None? ==>
        Installed() == old(Installed()) && snapshotChunkBytes == old(snapshotChunkBytes)
      ensures log == old(log) && TermVote() == old(TermVote())
    {
      var decoded := decode(snapshotChunkBytes);
      if decoded.Some? {
        snapshotBytes := snapshotChunkBytes;
        snapshotChunkBytes := [];
        snapshotLastTerm := lastTerm;
        snapshotLastIndex := lastIndex;
      }
      return None;
    }

    /**
     `try_use_chunks_as_new_snapshot` as its callers expect it: as above, but
     returning the decoded state machine, which is then also what `snapshot`
     reads back.
     */
    method TryUseChunksAsNewSnapshotReturning(lastIndex: u32, lastTerm: u32) returns (r: Option<RaftStateMachine<S, Cfg, Ids>>)
      modifies this
      ensures r == decode(old(snapshotChunkBytes))
      ensures r.Some? ==>
        && Installed() == (old(snapshotChunkBytes), lastIndex, lastTerm)
        && snapshotChunkBytes == []
        && Snapshot() == r.value
      ensures r.None? ==> Installed() == old(Installed()) && snapshotChunkBytes == old(snapshotChunkBytes)
      ensures log == old(log) && TermVote() == old(TermVote())
    {
      r := decode(snapshotChunkBytes);
      if r.Some? {
        snapshotBytes := snapshotChunkBytes;
        snapshotChunkBytes := [];
        snapshotLastTerm := lastTerm;
        snapshotLastIndex := lastIndex;
      }
    }

    /** `snapshot_chunk`: the `amt` installed bytes from `offset`; a range past the end panics. */
    function SnapshotChunk(offset: u32, amt: u32): (r: seq<byte>)
      reads this
      requires offset + amt <= |snapshotBytes|
      ensures |r| == amt
      ensures snapshotBytes[..offset] + r + snapshotBytes[offset + amt..] == snapshotBytes
    {
      snapshotBytes[offset..offset + amt]
    }

    /** `total_snapshot_bytes`: the length of the installed bytes, cast to `u32`. */
    function TotalSnapshotBytes(): (r: u32)
      reads this
      ensures |snapshotBytes| < U32_LIMIT ==> r == |snapshotBytes|
      ensures r < U32_LIMIT && (r - |snapshotBytes|) % U32_LIMIT == 0
    {
      |snapshotBytes| % U32_LIMIT
    }

    /** `set_voted_for`: only the vote changes. */
    method SetVotedFor(votedFor: Option<u32>)
      modifies this
      ensures VotedFor() == votedFor && CurrentTerm() == old(CurrentTerm())
      ensures log == old(log) && Installed() == old(Installed()) && snapshotChunkBytes == old(snapshotChunkBytes)
    {
      this.votedFor := votedFor;
    }

    /** `voted_for`. */
    function VotedFor(): Option<u32>
      reads this
    {
      votedFor
    }

    /** `set_current_term`: only the term changes. */
    method SetCurrentTerm(currentTerm: u32)
      modifies this
      ensures CurrentTerm() == currentTerm && VotedFor() == old(VotedFor())
      ensures log == old(log) && Installed() == old(Installed()) && snapshotChunkBytes == old(snapshotChunkBytes)
    {
      this.currentTerm := currentTerm;
    }

    /** `current_term`. */
    function CurrentTerm(): u32
      reads this
    {
      currentTerm
    }
  }

  /**
   A buffer that decodes is installed by `try_use_chunks_as_new_snapshot`
   as written, yet the caller receives `None`; the corrected operation
   returns the installed state machine.
   */
  method PromotionDiscardsSnapshot() returns (asWritten: Option<RaftStateMachine<int, int, int>>,
                                             corrected: Option<RaftStateMachine<int, int, int>>)
    ensures asWritten == None
    ensures corrected == Some(RaftStateMachine(7, 0, 0))
  {
    var sm := RaftStateMachine(7, 0, 0);
    var encode := (m: RaftStateMachine<int, int, int>) => [m.inner % 0x100];
    var decode := (b: seq<byte>) => if |b| == 1 then Some(RaftStateMachine(b[0], 0, 0)) else None;
    var a := new RamStorage<int, int, int, int>(RaftStateMachine(0, 0, 0), encode, decode);
    a.AddNewSnapshotChunk(0, encode(sm));
    asWritten := a.TryUseChunksAsNewSnapshot(1, 1);
    assert a.Snapshot() == sm;
    var b := new RamStorage<int, int, int, int>(RaftStateMachine(0, 0, 0), encode, decode);
    b.AddNewSnapshotChunk(0, encode(sm));
    corrected := b.TryUseChunksAsNewSnapshotReturning(1, 1);
  }
}
