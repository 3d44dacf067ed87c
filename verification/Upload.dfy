/** The chunked upload of the curl client, with egress paused and resumed at any time. */
module Upload {
  import opened Wire

  const READ_SIZE := 4096

  datatype Sent = Body(chunk: Bytes) | EOM

  /** What the network layer may do between sends. */
  datatype Event = Pause | Resume

  /** The chunks a whole file is read in: full ones, then one shorter one, possibly empty. */
  function Chunks(file: Bytes): seq<Bytes> {
    if |file| < READ_SIZE then [file] else [file[..READ_SIZE]] + Chunks(file[READ_SIZE..])
  }

  function Flatten(chunks: seq<Bytes>): Bytes {
    if chunks == [] then [] else chunks[0] + Flatten(chunks[1..])
  }

  lemma {:induction false} ChunksShape(file: Bytes)
    ensures |Chunks(file)| == |file| / READ_SIZE + 1
    ensures Flatten(Chunks(file)) == file
    ensures forall c <- Chunks(file) :: |c| <= READ_SIZE
    ensures forall i | 0 <= i < |Chunks(file)| - 1 :: |Chunks(file)[i]| == READ_SIZE
  {
    if |file| >= READ_SIZE {
      ChunksShape(file[READ_SIZE..]);
      assert file[..READ_SIZE] + file[READ_SIZE..] == file;
    } else {
      assert file + [] == file;
    }
  }

  function Bodies(chunks: seq<Bytes>): (log: seq<Sent>)
    ensures |log| == |chunks|
  {
    seq(|chunks|, i requires 0 <= i < |chunks| => Body(chunks[i]))
  }

  function Eoms(n: nat): (log: seq<Sent>)
    ensures |log| == n
  {
    seq(n, _ => EOM)
  }

  lemma BodiesSnoc(chunks: seq<Bytes>, chunk: Bytes)
    ensures Bodies(chunks + [chunk]) + Eoms(0) == Bodies(chunks) + Eoms(0) + [Body(chunk)]
  {
  }

  lemma NextChunk(sent: seq<Bytes>, unread: Bytes)
    ensures sent + Chunks(unread) ==
            if |unread| < READ_SIZE then sent + [unread] + []
            else sent + [unread[..READ_SIZE]] + Chunks(unread[READ_SIZE..])
  {
  }

  /** How many of the first c sends pause egress. */
  function PauseCount(pauses: nat -> bool, c: nat): nat {
    if c == 0 then 0 else PauseCount(pauses, c - 1) + if pauses(c - 1) then 1 else 0
  }

  lemma {:induction false} PauseCountGrows(pauses: nat -> bool, c: nat, c': nat)
    requires c <= c'
    ensures PauseCount(pauses, c) <= PauseCount(pauses, c')
    ensures (forall i | c <= i < c' :: !pauses(i)) ==> PauseCount(pauses, c) == PauseCount(pauses, c')
    decreases c'
  {
    if c < c' {
      PauseCountGrows(pauses, c, c' - 1);
    }
  }

  lemma {:induction false} NoPauses(pauses: nat -> bool, c: nat)
    requires forall i :: !pauses(i)
    ensures PauseCount(pauses, c) == 0
  {
    if c > 0 {
      NoPauses(pauses, c - 1);
    }
  }

  /** A run of sends up to the first one that may pause. */
  lemma SendsCounted(pauses: nat -> bool, c: nat, c': nat)
    requires c < c' && forall i | c <= i < c' - 1 :: !pauses(i)
    ensures PauseCount(pauses, c') == PauseCount(pauses, c) + if pauses(c' - 1) then 1 else 0
  {
    PauseCountGrows(pauses, c, c' - 1);
  }

  function Resumes(events: seq<Event>): nat {
    if events == [] then 0
    else Resumes(events[..|events| - 1]) + if events[|events| - 1] == Resume then 1 else 0
  }

  predicate PausedAfter(paused: bool, events: seq<Event>) {
    if events == [] then paused else events[|events| - 1] == Pause
  }

  /** How often sending starts or goes on: with the request unless egress is paused then, and at each resume. */
  function Tries(paused: bool, before: seq<Event>, after: seq<Event>): nat {
    Resumes(after) + if PausedAfter(paused, before) then 0 else 1
  }

  class CurlClient {
    var unread: Bytes
    var good: bool
    var inputOpen: bool
    var egressPaused: bool
    var log: seq<Sent>
    ghost var file: Bytes
    ghost var chunks: seq<Bytes>
    ghost var eoms: nat

    /** What was sent are the file's first chunks and then end-of-message marks; none before the last chunk. */
    ghost predicate Valid()
      reads this
    {
      && log == Bodies(chunks) + Eoms(eoms)
      && (inputOpen ==> chunks + (if good then Chunks(unread) else []) == Chunks(file))
      && (!good ==> unread == [])
      && (eoms > 0 ==> inputOpen && !good)
      && (!inputOpen ==> good && chunks == [] && eoms == 0 && unread == file)
    }

    constructor (file: Bytes)
      ensures Valid() && this.file == file && !inputOpen && !egressPaused
    {
      this.file, unread, good, inputOpen, egressPaused, log := file, file, true, false, false, [];
      chunks, eoms := [], 0;
    }

    /** Reading up to size bytes; falling short clears the stream's good flag. */
    method Read(size: nat) returns (chunk: Bytes)
      requires size > 0
      modifies this`unread, this`good
      ensures if |old(unread)| < size then chunk == old(unread) && unread == [] && !good
              else chunk == old(unread)[..size] && unread == old(unread)[size..] && good == old(good)
    {
      if |unread| < size {
        chunk, unread, good := unread, [], false;
      } else {
        chunk, unread := unread[..size], unread[size..];
      }
    }

    /** Handing a chunk to the transaction, which may call back to pause egress. */
    method SendBody(chunk: Bytes, pauses: bool)
      modifies this`log, this`egressPaused
      ensures log == old(log) + [Body(chunk)]
      ensures egressPaused == (old(egressPaused) || pauses)
    {
      log := log + [Body(chunk)];
      if pauses {
        OnEgressPaused();
      }
    }

    method OnEgressPaused()
      modifies this`egressPaused
      ensures egressPaused
    {
      egressPaused := true;
    }

    /** Sends until paused or done. pauses says which sends, counted from 0, pause egress. */
    method SendBodyFromFile(pauses: nat -> bool)
      requires Valid() && inputOpen
      modifies this
      ensures Valid() && inputOpen && file == old(file)
      ensures !egressPaused ==> !good && eoms == old(eoms) + 1
      ensures egressPaused ==> eoms == old(eoms)
      ensures old(egressPaused) ==> egressPaused && log == old(log) && chunks == old(chunks)
      ensures |chunks| >= |old(chunks)|
      ensures !old(egressPaused) ==>
                PauseCount(pauses, |chunks|) + eoms == PauseCount(pauses, |old(chunks)|) + old(eoms) + 1
      ensures !old(egressPaused) ==>
                && (egressPaused <==> |chunks| > |old(chunks)| && pauses(|chunks| - 1))
                && forall i | |old(chunks)| <= i < |chunks| - 1 :: !pauses(i)
    {
      hide Chunks, Bodies, PauseCount;
      while good && !egressPaused
        invariant Valid() && inputOpen && file == old(file) && eoms == old(eoms)
        invariant old(egressPaused) ==> egressPaused && log == old(log) && chunks == old(chunks)
        invariant |chunks| >= |old(chunks)|
        invariant !old(egressPaused) ==>
                    && (egressPaused <==> |chunks| > |old(chunks)| && pauses(|chunks| - 1))
                    && forall i | |old(chunks)| <= i < |chunks| - 1 :: !pauses(i)
        decreases |unread|, good
      {
        NextChunk(chunks, unread);
        var buf := Read(READ_SIZE);
        BodiesSnoc(chunks, buf);
        chunks := chunks + [buf];
        SendBody(buf, pauses(|log|));
      }
      if !old(egressPaused) && |chunks| > |old(chunks)| {
        SendsCounted(pauses, |old(chunks)|, |chunks|);
      }
      if !egressPaused {
        assert Eoms(eoms + 1) == Eoms(eoms) + [EOM];
        log := log + [EOM];
        eoms := eoms + 1;
      }
    }

    method OnEgressResumed(pauses: nat -> bool)
      requires Valid()
      modifies this
      ensures Valid() && file == old(file) && inputOpen == old(inputOpen)
      ensures !inputOpen ==> !egressPaused && log == old(log)
      ensures inputOpen && !egressPaused ==> !good && eoms == old(eoms) + 1
      ensures inputOpen ==>
                PauseCount(pauses, |chunks|) + eoms == PauseCount(pauses, |old(chunks)|) + old(eoms) + 1
    {
      egressPaused := false;
      if inputOpen {
        SendBodyFromFile(pauses);
      }
    }

    method SendRequest(pauses: nat -> bool)
      requires Valid() && !inputOpen
      modifies this
      ensures Valid() && inputOpen && file == old(file)
      ensures !egressPaused ==> !good && eoms > 0
      ensures PauseCount(pauses, |chunks|) + eoms == if old(egressPaused) then 0 else 1
    {
      inputOpen := true;
      SendBodyFromFile(pauses);
    }

    /** The request is sent after some events and followed by others, each resume outside any send. */
    method Run(before: seq<Event>, after: seq<Event>, pauses: nat -> bool)
      requires Valid() && !inputOpen
      modifies this
      ensures Valid() && inputOpen && file == old(file)
      ensures Flatten(chunks) + unread == file
      ensures eoms > 0 ==> chunks == Chunks(file) && log == Bodies(Chunks(file)) + Eoms(eoms)
      ensures !egressPaused ==> eoms > 0
      ensures var tries, pausing := Tries(old(egressPaused), before, after), PauseCount(pauses, |Chunks(file)|);
        eoms == if tries <= pausing then 0 else tries - pausing
      ensures !old(egressPaused) && before == [] && after == [] && (forall i :: !pauses(i)) ==>
                log == Bodies(Chunks(file)) + [EOM]
    {
      hide Chunks, Bodies, Flatten;
      for i := 0 to |before|
        invariant Valid() && !inputOpen && file == old(file)
        invariant egressPaused == PausedAfter(old(egressPaused), before[..i])
      {
        assert before[..i + 1] == before[..i] + [before[i]];
        match before[i] {
          case Pause => OnEgressPaused();
          case Resume => OnEgressResumed(pauses);
        }
      }
      assert before[..|before|] == before && after[..0] == [];
      SendRequest(pauses);
      for i := 0 to |after|
        invariant Valid() && inputOpen && file == old(file) && (!egressPaused ==> eoms > 0)
        invariant PauseCount(pauses, |chunks|) + eoms == Tries(old(egressPaused), before, after[..i])
      {
        assert after[..i + 1] == after[..i] + [after[i]] && after[..i + 1][..i] == after[..i];
        match after[i] {
          case Pause => OnEgressPaused();
          case Resume => OnEgressResumed(pauses);
        }
      }
      assert after[..|after|] == after;
      if forall i :: !pauses(i) {
        NoPauses(pauses, |chunks|);
      }
      if eoms == 0 {
        assert |chunks| <= |Chunks(file)|;
        PauseCountGrows(pauses, |chunks|, |Chunks(file)|);
      }
      SentPlusUnread(chunks, if good then Chunks(unread) else [], unread, file);
    }
  }

  lemma {:induction false} FlattenAppend(a: seq<Bytes>, b: seq<Bytes>)
    ensures Flatten(a + b) == Flatten(a) + Flatten(b)
  {
    if a == [] {
      assert a + b == b;
    } else {
      FlattenAppend(a[1..], b);
      assert (a + b)[0] == a[0] && (a + b)[1..] == a[1..] + b;
      Assoc(a[0], Flatten(a[1..]), Flatten(b));
    }
  }

  /** The bytes sent and the bytes unread make up the file. */
  lemma SentPlusUnread(sent: seq<Bytes>, left: seq<Bytes>, unread: Bytes, file: Bytes)
    requires sent + left == Chunks(file)
    requires left == Chunks(unread) || (left == [] && unread == [])
    ensures Flatten(sent) + unread == file
  {
    FlattenAppend(sent, left);
    ChunksShape(file);
    ChunksShape(unread);
  }

  lemma {:induction false} LastChunk(file: Bytes)
    ensures |Chunks(file)| > 0 && |Chunks(file)[|Chunks(file)| - 1]| == |file| % READ_SIZE
  {
    if |file| >= READ_SIZE {
      LastChunk(file[READ_SIZE..]);
    }
  }

  /** A completed upload of n bytes takes n / 4096 full sends and one of the rest, all before the first mark. */
  lemma CompletedUpload(log: seq<Sent>, file: Bytes, eoms: nat)
    requires log == Bodies(Chunks(file)) + Eoms(eoms) && eoms > 0
    ensures var n := |file| / 4096 + 1;
      && |log| == n + eoms
      && (forall i | 0 <= i < n - 1 :: log[i].Body? && |log[i].chunk| == 4096)
      && log[n - 1].Body? && |log[n - 1].chunk| == |file| % 4096
      && (forall i | n <= i < |log| :: log[i] == EOM)
  {
    hide Chunks;
    ChunksShape(file);
    LastChunk(file);
    forall i | 0 <= i < |Chunks(file)|
      ensures log[i] == Body(Chunks(file)[i])
    {
    }
  }
}
