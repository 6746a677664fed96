/**
 A seekable reader over a pinned artifact, against a source that may answer every call
 differently. Every byte it returns is a byte of the authenticated snapshot, or a chunk with
 the snapshot chunk's digest and different contents (a collision) is in hand.
 */
module AuthenticatedReaders {
  import opened Bytes
  import opened Sha256
  import opened TreeErrors

  type Hash = Digest32

  const CHUNK_BYTES: nat := 65536
  const U64_LIMIT: nat := 0x1_0000_0000_0000_0000

  datatype ReadError =
    | InvalidExpectedHash
    | HashMismatch
    | LengthOverflow
    | Io
    | UnexpectedEof
    | ChangedAfterAuthentication(chunk: nat)
    | InvalidSeek

  datatype Outcome<+T> = Good(value: T) | Bad(error: ReadError)

  /** How the source answers its next call. */
  datatype Response = Data(bytes: seq<Byte>) | Interrupted | Failed

  function Least(a: nat, b: nat): nat {
    if a <= b then a else b
  }

  /**
   The answers deliver exactly `bytes` from here on, in pieces of any size and with any
   interruptions; `room` is what is left to read of the chunk under way, and no piece crosses it.
   */
  predicate Serves(script: seq<Response>, bytes: seq<Byte>, room: nat) {
    if script == [] then bytes == []
    else
      match script[0]
      case Failed => false
      case Interrupted => Serves(script[1..], bytes, room)
      case Data(piece) =>
        if piece == [] then bytes == []
        else piece <= bytes && |piece| <= room && Serves(script[1..], bytes[|piece|..], RoomAfter(room, |piece|))
  }

  function RoomAfter(room: nat, read: nat): nat
    requires read <= room
  {
    if read == room then CHUNK_BYTES else room - read
  }

  /** A read of `limit` bytes under way: `filled` is here and the answers deliver the rest. */
  predicate Filling(script: seq<Response>, bytes: seq<Byte>, filled: seq<Byte>, limit: nat) {
    && filled <= bytes && |filled| <= limit
    && Serves(script, bytes[|filled|..], RoomAfter(limit, |filled|))
  }

  lemma NoFailure(script: seq<Response>)
    ensures script != [] && script[0].Failed? ==> forall bytes, room :: !Serves(script, bytes, room)
  {}

  lemma FillStart(script: seq<Response>, limit: nat)
    ensures forall bytes | 0 < limit && Serves(script, bytes, limit) :: Filling(script, bytes, [], limit)
  {
    forall bytes | 0 < limit && Serves(script, bytes, limit)
      ensures Filling(script, bytes, [], limit)
    {
      assert bytes[0..] == bytes;
    }
  }

  lemma FillEnd(script: seq<Response>, bytes: seq<Byte>, filled: seq<Byte>, limit: nat)
    requires Filling(script, bytes, filled, limit) && 0 < limit && (|filled| == limit || filled == bytes)
    ensures filled == bytes[..Least(limit, |bytes|)]
    ensures limit <= |bytes| ==> Serves(script, bytes[limit..], CHUNK_BYTES)
  {
    hide Serves;
  }

  /** The next answer of such a read. */
  lemma FillStep(script: seq<Response>, bytes: seq<Byte>, filled: seq<Byte>, limit: nat)
    requires Filling(script, bytes, filled, limit) && |filled| < limit
    ensures script == [] ==> filled == bytes
    ensures script != [] && script[0].Interrupted? ==> Filling(script[1..], bytes, filled, limit)
    ensures script != [] ==> !script[0].Failed?
    ensures script != [] && script[0].Data? ==>
      var piece := script[0].bytes;
      && |piece| <= limit - |filled|
      && if piece == [] then filled == bytes else Filling(script[1..], bytes, filled + piece, limit)
  {
    if script == [] || script[0] == Data([]) {
      assert bytes == filled + bytes[|filled|..];
    } else if script[0].Data? {
      var piece := script[0].bytes;
      assert bytes == filled + bytes[|filled|..];
      assert bytes[|filled|..][|piece|..] == bytes[|filled + piece|..];
      assert filled + piece <= bytes;
    }
  }

  /** A source with an arbitrary list of answers; when they run out it is at its end. */
  class Source {
    var script: seq<Response>

    constructor (script: seq<Response>)
      ensures this.script == script
    {
      this.script := script;
    }

    /** One `read` call of at most `limit` bytes. */
    method Read(limit: nat) returns (response: Response)
      modifies this
      ensures response.Data? ==> |response.bytes| <= limit
      ensures |script| <= old(|script|)
      ensures old(script) != [] && (old(script[0]).Data? ==> |old(script[0]).bytes| <= limit) ==>
        response == old(script[0]) && script == old(script[1..])
      ensures old(script) == [] ==> response == Data([]) && script == []
      ensures response.Interrupted? || (response.Data? && response.bytes != []) ==> |script| < old(|script|)
    {
      if script == [] {
        return Data([]);
      }
      response := script[0];
      script := script[1..];
      if response.Data? && |response.bytes| > limit {
        response := Data(response.bytes[..limit]);
      }
    }

    /** A `seek` to a start offset; it may fail. */
    method Seek(start: nat) returns (ok: bool)
      modifies this
      ensures |script| <= old(|script|)
      ensures ok ==> script == old(script)
      ensures !ok <==> old(script != [] && script[0].Failed?)
    {
      ok := !(script != [] && script[0].Failed?);
      if !ok {
        script := script[1..];
      }
    }

    /** Read until `limit` bytes or the end, retrying interrupted calls. */
    method Fill(limit: nat) returns (outcome: Outcome<seq<Byte>>)
      modifies this
      ensures outcome.Good? ==> |outcome.value| <= limit
      ensures outcome.Bad? ==> outcome.error == Io
      ensures forall bytes | 0 < limit && Serves(old(script), bytes, limit) ::
        && outcome == Good(bytes[..Least(limit, |bytes|)])
        && (limit <= |bytes| ==> Serves(script, bytes[limit..], CHUNK_BYTES))
      ensures |script| <= old(|script|)
      ensures outcome.Good? && outcome.value != [] ==> |script| < old(|script|)
    {
      hide Serves, Filling;
      var filled: seq<Byte> := [];
      FillStart(script, limit);
      while |filled| < limit
        invariant |filled| <= limit && |script| <= old(|script|)
        invariant filled != [] ==> |script| < old(|script|)
        invariant forall bytes | 0 < limit && Serves(old(script), bytes, limit) :: Filling(script, bytes, filled, limit)
        decreases |script|
      {
        forall bytes | Filling(script, bytes, filled, limit) {
          FillStep(script, bytes, filled, limit);
        }
        var response := Read(limit - |filled|);
        match response {
          case Data(bytes) =>
            if bytes == [] {
              forall all | 0 < limit && Serves(old(script), all, limit)
                ensures filled == all[..Least(limit, |all|)] && |all| < limit
              {}
              return Good(filled);
            }
            filled := filled + bytes;
          case Interrupted =>
          case Failed =>
            return Bad(Io);
        }
      }
      forall bytes | 0 < limit && Serves(old(script), bytes, limit) {
        FillEnd(script, bytes, filled, limit);
      }
      outcome := Good(filled);
    }
  }

  // ----- chunks of the snapshot -----

  function ChunkLength(length: nat, index: nat): nat
    requires index * CHUNK_BYTES <= length
  {
    Least(length - index * CHUNK_BYTES, CHUNK_BYTES)
  }

  function Chunk(snapshot: seq<Byte>, index: nat): (chunk: seq<Byte>)
    requires index * CHUNK_BYTES <= |snapshot|
    ensures |chunk| == ChunkLength(|snapshot|, index)
  {
    snapshot[index * CHUNK_BYTES..][..ChunkLength(|snapshot|, index)]
  }

  /** The digests of every chunk, and no more. */
  ghost predicate Digests(hashes: seq<Hash>, snapshot: seq<Byte>) {
    && (forall i | 0 <= i < |hashes| :: i * CHUNK_BYTES < |snapshot| && hashes[i] == Sha(Chunk(snapshot, i)))
    && |snapshot| <= |hashes| * CHUNK_BYTES
  }

  /** Appending a chunk to a snapshot that is whole chunks so far. */
  lemma AppendChunk(hashes: seq<Hash>, snapshot: seq<Byte>, chunk: seq<Byte>)
    requires Digests(hashes, snapshot) && |snapshot| == |hashes| * CHUNK_BYTES && 0 < |chunk| <= CHUNK_BYTES
    ensures Digests(hashes + [Sha(chunk)], snapshot + chunk)
  {
    var all := snapshot + chunk;
    forall i | 0 <= i <= |hashes|
      ensures i * CHUNK_BYTES < |all| && (hashes + [Sha(chunk)])[i] == Sha(Chunk(all, i))
    {
      if i < |hashes| {
        assert Chunk(all, i) == Chunk(snapshot, i);
      } else {
        assert Chunk(all, i) == chunk;
      }
    }
  }

  lemma SliceOfTake(bytes: seq<Byte>, size: nat, from: nat, count: nat)
    requires from + count <= size <= |bytes|
    ensures bytes[from..from + count] == bytes[..size][from..from + count]
  {}

  lemma SliceOfDrop(bytes: seq<Byte>, start: nat, size: nat, from: nat, count: nat)
    requires from + count <= size && start + size <= |bytes|
    ensures bytes[start..][..size][from..from + count] == bytes[start + from..][..count]
  {}

  datatype Target = Start(position: nat) | Current(offset: int) | End(offset: int)

  class AuthenticatedReader {
    const source: Source
    const length: nat
    const hashes: seq<Hash>
    var position: nat
    var buffer: seq<Byte>
    var cachedChunk: Option<nat>
    /** The bytes whose digest matched the pin. */
    ghost const snapshot: seq<Byte>

    ghost predicate Valid()
      reads this
    {
      && length == |snapshot| && |buffer| == CHUNK_BYTES
      && Digests(hashes, snapshot)
      && (cachedChunk.Some? ==> Authenticated(cachedChunk.value))
    }

    /** The buffer holds bytes with the digest of chunk `index`. */
    ghost predicate Authenticated(index: nat)
      reads this
    {
      && index < |hashes| && index * CHUNK_BYTES < length
      && ChunkLength(length, index) <= |buffer|
      && Sha(buffer[..ChunkLength(length, index)]) == hashes[index]
    }

    /** The source is about to deliver chunk `index` of the snapshot, in whatever pieces. */
    ghost predicate Honest(index: nat)
      requires index * CHUNK_BYTES <= |snapshot|
      reads source
    {
      exists bytes | Chunk(snapshot, index) <= bytes :: Serves(source.script, bytes, ChunkLength(|snapshot|, index))
    }

    constructor (source: Source, ghost snapshot: seq<Byte>, hashes: seq<Hash>, length: nat, buffer: seq<Byte>)
      requires Digests(hashes, snapshot) && length == |snapshot| && |buffer| == CHUNK_BYTES
      ensures Valid() && this.source == source && this.snapshot == snapshot && position == 0
    {
      this.source, this.length, this.hashes, this.snapshot := source, length, hashes, snapshot;
      this.position, this.buffer, this.cachedChunk := 0, buffer, None;
    }

    /** The bytes of chunk `index` from `from` on, as far as they are in the buffer, are the snapshot's, or collide. */
    lemma BufferIsSnapshot(index: nat, from: nat, count: nat)
      requires Valid() && Authenticated(index) && from + count <= ChunkLength(length, index)
      ensures
        || buffer[from..from + count] == snapshot[index * CHUNK_BYTES + from..][..count]
        || Collision(buffer[..ChunkLength(length, index)], Chunk(snapshot, index))
    {
      var size := ChunkLength(length, index);
      if buffer[..size] == Chunk(snapshot, index) {
        SliceOfTake(buffer, size, from, count);
        SliceOfDrop(snapshot, index * CHUNK_BYTES, size, from, count);
      }
    }

    /** Bring chunk `index` into the buffer, checked against its digest; a failure leaves nothing cached. */
    method CacheChunk(index: nat) returns (outcome: Outcome<()>)
      requires Valid() && index < |hashes|
      modifies this`buffer, this`cachedChunk, source
      ensures Valid()
      ensures outcome.Good? ==> cachedChunk == Some(index)
      ensures outcome.Bad? ==> cachedChunk == None
      ensures old(cachedChunk == Some(index) || Honest(index)) ==> outcome.Good?
      ensures outcome.Bad? && outcome.error.ChangedAfterAuthentication? ==>
        outcome.error.chunk == index && buffer[..ChunkLength(length, index)] != Chunk(snapshot, index)
    {
      hide Sha;
      if cachedChunk == Some(index) {
        return Good(());
      }
      cachedChunk := None;
      assert index * CHUNK_BYTES < |snapshot|;
      var count := ChunkLength(length, index);
      var sought := source.Seek(index * CHUNK_BYTES);
      if !sought {
        return Bad(Io);
      }
      ghost var honest, script := Honest(index), source.script;
      var filled := source.Fill(count);
      if honest {
        ghost var bytes :| Chunk(snapshot, index) <= bytes && Serves(script, bytes, count);
        assert filled == Good(bytes[..Least(count, |bytes|)]) && bytes[..count] == Chunk(snapshot, index);
      }
      if filled.Bad? {
        return Bad(filled.error);
      }
      buffer := filled.value + buffer[|filled.value|..];
      if |filled.value| < count {
        return Bad(UnexpectedEof);
      }
      assert buffer[..count] == filled.value;
      if Sha(buffer[..count]) != hashes[index] {
        return Bad(ChangedAfterAuthentication(index));
      }
      cachedChunk := Some(index);
      outcome := Good(());
    }

    /** The next bytes, at most `limit`, within one chunk. */
    method Read(limit: nat) returns (outcome: Outcome<seq<Byte>>)
      requires Valid()
      modifies this, source
      ensures Valid()
      ensures limit == 0 || old(position) >= length ==> outcome == Good([])
      ensures outcome.Good? ==>
        && position == old(position) + |outcome.value|
        && (old(position) < length ==>
              |outcome.value| == Least(Least(limit, CHUNK_BYTES - old(position) % CHUNK_BYTES), length - old(position)))
      ensures outcome.Good? && outcome.value != [] ==>
        var index := old(position) / CHUNK_BYTES;
        && Authenticated(index)
        && (|| outcome.value == snapshot[old(position)..position]
            || Collision(buffer[..ChunkLength(length, index)], Chunk(snapshot, index)))
      ensures outcome.Bad? ==> position == old(position) && cachedChunk == None
      ensures old(position) < length && old(Honest(position / CHUNK_BYTES)) ==> outcome.Good?
    {
      if limit == 0 || position >= length {
        return Good([]);
      }
      var index := position / CHUNK_BYTES;
      var cached := CacheChunk(index);
      if cached.Bad? {
        return Bad(cached.error);
      }
      var offset := position % CHUNK_BYTES;
      var count := Least(Least(limit, CHUNK_BYTES - offset), Least(length - position, CHUNK_BYTES));
      assert position == index * CHUNK_BYTES + offset;
      BufferIsSnapshot(index, offset, count);
      var bytes := buffer[offset..offset + count];
      assert snapshot[position..][..count] == snapshot[position..position + count];
      position := position + count;
      outcome := Good(bytes);
    }

    /** Move the position, possibly past the end; an offset that leaves the 64-bit range changes nothing. */
    method Seek(target: Target) returns (outcome: Outcome<nat>)
      requires Valid()
      modifies this`position
      ensures Valid()
      ensures var wanted := match target
          case Start(p) => p
          case Current(offset) => old(position) + offset
          case End(offset) => length + offset;
        if target.Start? || 0 <= wanted < U64_LIMIT
        then position == wanted && outcome == Good(wanted)
        else position == old(position) && outcome == Bad(InvalidSeek)
    {
      var wanted := match target
        case Start(p) => p
        case Current(offset) => position + offset
        case End(offset) => length + offset;
      if !target.Start? && !(0 <= wanted < U64_LIMIT) {
        return Bad(InvalidSeek);
      }
      position := wanted;
      outcome := Good(wanted);
    }
  }

  lemma NoDigests()
    ensures Digests([], [])
  {}

  /** The chunk read next, when the answers deliver the rest of the artifact. */
  lemma ChunkServed(artifact: seq<Byte>, hashed: seq<Byte>, chunk: seq<Byte>)
    requires hashed <= artifact && chunk == artifact[|hashed|..][..Least(CHUNK_BYTES, |artifact| - |hashed|)]
    ensures hashed + chunk <= artifact && artifact[|hashed|..][|chunk|..] == artifact[|hashed + chunk|..]
    ensures |chunk| < CHUNK_BYTES ==> hashed + chunk == artifact && (chunk == [] ==> hashed == artifact)
  {
    assert artifact == hashed + artifact[|hashed|..];
  }

  /** Authenticate the whole artifact against `pin` (`None` when the given text is not a digest). */
  method Open(source: Source, pin: Option<Hash>) returns (reader: Outcome<AuthenticatedReader>)
    modifies source
    ensures reader.Good? ==> fresh(reader.value)
    ensures reader.Good? ==>
      && reader.value.Valid() && reader.value.source == source
      && reader.value.position == 0 && pin == Some(Sha(reader.value.snapshot))
    ensures reader == Bad(InvalidExpectedHash) <==> pin == None
    ensures forall artifact | Serves(old(source.script), artifact, CHUNK_BYTES) && |artifact| < U64_LIMIT && pin.Some? ::
      if pin.value == Sha(artifact) then reader.Good? && reader.value.snapshot == artifact else reader == Bad(HashMismatch)
  {
    hide Serves, Digests;
    if pin == None {
      return Bad(InvalidExpectedHash);
    }
    NoFailure(source.script);
    var sought := source.Seek(0);
    if !sought {
      return Bad(Io);
    }
    var hashed: seq<Byte>, hashes: seq<Hash> := [], [];
    var buffer: seq<Byte> := seq(CHUNK_BYTES, _ => 0);
    var length: nat := 0;
    NoDigests();
    ghost var script := source.script;
    while true
      invariant |buffer| == CHUNK_BYTES && length == |hashed| == |hashes| * CHUNK_BYTES
      invariant Digests(hashes, hashed)
      invariant forall artifact | Serves(script, artifact, CHUNK_BYTES) ::
        hashed <= artifact && Serves(source.script, artifact[|hashed|..], CHUNK_BYTES)
      decreases |source.script|
    {
      var outcome := source.Fill(CHUNK_BYTES);
      forall artifact | Serves(script, artifact, CHUNK_BYTES) && outcome.Good? {
        ChunkServed(artifact, hashed, outcome.value);
      }
      if outcome.Bad? {
        return Bad(outcome.error);
      }
      var chunk := outcome.value;
      buffer := chunk + buffer[|chunk|..];
      if |chunk| == 0 {
        break;
      }
      if length + |chunk| >= U64_LIMIT {
        return Bad(LengthOverflow);
      }
      AppendChunk(hashes, hashed, chunk);
      hashed := hashed + chunk;
      hashes := hashes + [Sha(chunk)];
      length := length + |chunk|;
      if |chunk| < CHUNK_BYTES {
        break;
      }
    }
    assert forall artifact | Serves(script, artifact, CHUNK_BYTES) :: artifact == hashed;
    if Sha(hashed) != pin.value {
      return Bad(HashMismatch);
    }
    var view := new AuthenticatedReader(source, hashed, hashes, length, buffer);
    reader := Good(view);
  }
}
