/** PUT and GET of the FineDB server on top of the codec.

Whatever a client sends is stored in compressed form: as received when the client says that
it is compressed, after compression otherwise. The ghost field `history` holds the PUTs that
were applied and what they mean; every operation is specified by it, so a value read back is
the value of the last PUT applied, whichever side did the compressing.
 */
module FineDb {
  import opened Basics
  import opened SnappyFormat
  import opened SnappyVarint
  import opened SnappyDecoder
  import opened SnappyCompressor

  type Bytes = seq<byte>

  const MAX_KEY_SIZE := 511   // MDB_MAXKEYSIZE

  /** The keys that the database accepts. */
  predicate GoodKey(name: Bytes) {
    0 < |name| <= MAX_KEY_SIZE
  }

  /** The two readers of the stored length agree: GET sizes its buffer with one of them and
      decodes with the other. */
  predicate ReadersAgree(s: Bytes) {
    !(FiveByteForm(s) && 16 <= s[4] < 128)
  }

  /** What a PUT asks to store: the decoded payload, or the payload itself. A raw payload of 2^31
      bytes or more is not representable, because its compressed form does not decode. */
  function Requested(payload: Bytes, compressed: bool): Option<Bytes> {
    if compressed then Uncompress(payload)
    else if |payload| < 0x8000_0000 then Some(payload)
    else None
  }

  /** The value each key has after PUTs applied in this order. */
  function Replay(history: seq<(Bytes, Option<Bytes>)>): map<Bytes, Option<Bytes>> {
    if history == [] then map[]
    else
      var last := history[|history| - 1];
      Replay(history[..|history| - 1])[last.0 := last.1]
  }

  lemma ReplayOne(history: seq<(Bytes, Option<Bytes>)>, name: Bytes, value: Option<Bytes>)
    ensures Replay(history + [(name, value)]) == Replay(history)[name := value]
  {
    assert (history + [(name, value)])[..|history|] == history;
  }

  /** A key is known if and only if some PUT for it was applied, and its value is that of the
      last one. */
  lemma {:induction false} LastPutWins(history: seq<(Bytes, Option<Bytes>)>, i: nat)
    requires i < |history|
    requires forall j :: i < j < |history| ==> history[j].0 != history[i].0
    ensures history[i].0 in Replay(history) && Replay(history)[history[i].0] == history[i].1
    decreases |history|
  {
    if i < |history| - 1 { LastPutWins(history[..|history| - 1], i); }
  }

  lemma {:induction false} OnlyPutKeys(history: seq<(Bytes, Option<Bytes>)>, k: Bytes)
    requires k in Replay(history)
    ensures exists i :: 0 <= i < |history| && history[i].0 == k
  {
    if history[|history| - 1].0 != k {
      var shorter := history[..|history| - 1];
      OnlyPutKeys(shorter, k);
      var i :| 0 <= i < |shorter| && shorter[i].0 == k;
      assert history[i].0 == k;
    }
  }

  /** The outcome of decoding a stored string. `Overrun`: the buffer is smaller than the length that
      the decoder goes by, and bytes are stored. */
  datatype Status = Unzipped | Failed | Overrun

  /** The size of the buffer for a decoded value: the length that is read, or whatever the variable
      for it holds if it cannot be read. */
  function BufferSize(data: Bytes, unset: nat): nat {
    var parsed := Parse(data);
    if parsed.Some? then parsed.value.0 else unset
  }

  /** What decoding `data` can lead to. The decoded value is followed by what else the buffer holds. */
  ghost predicate UnzipOutcome(data: Bytes, unset: nat, status: Status, raw: Bytes) {
    var size := BufferSize(data, unset);
    match status
    case Overrun => size < StoredLength(data) && !Untouched(data)
    case Failed => Uncompress(data) == None && (size < StoredLength(data) ==> Untouched(data))
    case Unzipped =>
      && StoredLength(data) <= size == |raw|
      && Uncompress(data).Some? && Uncompress(data).value <= raw
  }

  /** The outcome does not depend on a variable that was never set. */
  ghost predicate Defined(data: Bytes) {
    forall u: nat, u': nat, status, status', raw, raw' ::
      UnzipOutcome(data, u, status, raw) && UnzipOutcome(data, u', status', raw') ==>
      status == status' && (status == Unzipped ==> raw == raw')
  }

  lemma StoredLengthOf(data: Bytes)
    ensures Uncompress(data).Some? ==> |Uncompress(data).value| == StoredLength(data)
    ensures Parse(data).Some? ==> Parse(data).value.0 == StoredLength(data)
    ensures Uncompress(data).Some? ==> (Parse(data).None? <==> !ReadersAgree(data))
    ensures !ReadersAgree(data) ==> Parse(data).None?
    ensures !Untouched(data) ==> StoredLength(data) > 0 && (Parse(data).None? ==> !ReadersAgree(data))
  {
    hide RunTags, ReadLength, Parse;
    ReadLengthUnrolled(data);
    ReadersAgreeIff(data);
    if !Untouched(data) { StoresLimit(ReadLength(data, 1, 0).value.1); }
  }

  lemma {:induction false} StoresLimit(s: Bytes)
    ensures StoresNothing(s, 0)
    decreases |s|
  {
    hide AfterTag, LiteralSize;
    if s != [] && WholeTag(s) && s[0] % 4 == 0 && LiteralSize(s) == 0 {
      AfterTagShorter(s);
      StoresLimit(AfterTag(s));
    }
  }

  lemma AfterTagShorter(s: Bytes)
    requires WholeTag(s)
    ensures |AfterTag(s)| < |s|
  {
  }

  /** It does not if and only if the readers agree or decoding fails before a byte is stored. */
  lemma DefinedIff(data: Bytes)
    ensures Defined(data) <==> ReadersAgree(data) || (Uncompress(data) == None && Untouched(data))
  {
    hide Uncompress, Untouched, Parse, StoredLength, ReadersAgree;
    StoredLengthOf(data);
    var n := StoredLength(data);
    if !ReadersAgree(data) {
      if Uncompress(data).Some? {
        var out := Uncompress(data).value;
        assert UnzipOutcome(data, n, Unzipped, out);
        assert UnzipOutcome(data, n + 1, Unzipped, out + [0]);
        assert |out| != |out + [0]|;
      } else if !Untouched(data) {
        assert UnzipOutcome(data, 0, Overrun, []);
        assert UnzipOutcome(data, n, Failed, []);
      }
    }
  }

  /** Strings on which the readers disagree: the first decodes, to a value of a length that was never
      set; the second fails before a byte is stored, whatever that length. */
  lemma Disagreements()
    ensures !ReadersAgree([128, 128, 128, 128, 16]) && !Defined([128, 128, 128, 128, 16])
    ensures !ReadersAgree([128, 128, 128, 128, 16, 0xF0]) && Defined([128, 128, 128, 128, 16, 0xF0])
  {
    var s: Bytes := [128, 128, 128, 128, 16];
    var t: Bytes := [0xF0];
    assert RunTags([], [], 0, true) == Done([]) && RunTags(t, [], 0, true) == Fail;
    assert StoresNothing(t, 0);
    assert s + [] == s && s + t == [128, 128, 128, 128, 16, 0xF0];
    hide RunTags, ReadLength, StoresNothing, Defined;
    ReadsZero([]);
    ReadsZero(t);
    DefinedIff(s);
    DefinedIff(s + t);
  }

  lemma ReadsZero(rest: Bytes)
    ensures ReadLength([128, 128, 128, 128, 16] + rest, 1, 0) == Some((0, rest))
  {
    hide ReadLength;
    var s: Bytes := [128, 128, 128, 128, 16] + rest;
    assert s[1..][1..] == s[2..] && s[2..][1..] == s[3..] && s[3..][1..] == s[4..] && s[4..][1..] == rest;
    ReadStep(s, 1, 0);
    ReadStep(s[1..], 0x80, 0);
    ReadStep(s[2..], 0x4000, 0);
    ReadStep(s[3..], 0x20_0000, 0);
    ReadStep(s[4..], 0x1000_0000, 0);
  }

  datatype Message = Message(name: Bytes, data: Bytes)

  /** `Undefined`: bytes were stored past the end of the buffer. */
  datatype Reply = Found(data: Bytes) | Stored | BadName | ServerError | Undefined

  class Server {
    var store: map<Bytes, Bytes>
    var queue: seq<Message>                           // asynchronous PUTs on their way to the writer
    ghost var wanted: seq<Option<Bytes>>              // meaning of what is queued
    ghost var history: seq<(Bytes, Option<Bytes>)>    // the PUTs applied so far and their meaning

    ghost predicate Valid() reads this {
      && store.Keys == Replay(history).Keys
      && (forall k :: k in store ==> Uncompress(store[k]) == Replay(history)[k])
      && |queue| == |wanted|
      && (forall i :: 0 <= i < |queue| ==> Uncompress(queue[i].data) == wanted[i])
    }

    constructor ()
      ensures Valid() && history == [] && wanted == [] && queue == []
    {
      store, queue, history, wanted := map[], [], [], [];
    }

    /** A PUT without the sync option is answered at once and applied later by the writer. */
    method Put(name: Bytes, payload: Bytes, compressed: bool, sync: bool) returns (reply: Reply)
      requires Valid() && |payload| < 0x1_0000_0000
      modifies this
      ensures Valid()
      ensures reply == if sync && (name == [] || |name| > 511) then BadName else Stored
      ensures history == if sync && GoodKey(name) then old(history) + [(name, Requested(payload, compressed))]
                         else old(history)
      ensures wanted == if sync then old(wanted) else old(wanted) + [Requested(payload, compressed)]
      ensures !sync ==> |queue| == |old(queue)| + 1 && old(queue) <= queue && queue[|old(queue)|].name == name
      ensures sync ==> queue == old(queue)
      // a payload is stored as it came, or in a form on which the length readers agree
      ensures !sync ==>
        if compressed then queue[|old(queue)|].data == payload else ReadersAgree(queue[|old(queue)|].data)
      ensures sync && GoodKey(name) ==>
        name in store && if compressed then store[name] == payload else ReadersAgree(store[name])
    {
      hide Uncompress;
      var data := payload;
      if !compressed { data := Zip(payload); }
      if !sync {
        queue := queue + [Message(name, data)];
        wanted := wanted + [Requested(payload, compressed)];
        return Stored;
      }
      if !GoodKey(name) { return BadName; }
      Apply(name, data, Requested(payload, compressed));
      return Stored;
    }

    /** database_put for an accepted key. */
    method Apply(name: Bytes, data: Bytes, ghost value: Option<Bytes>)
      requires Valid() && Uncompress(data) == value
      modifies this`store, this`history
      ensures Valid() && history == old(history) + [(name, value)] && store == old(store)[name := data]
    {
      hide Uncompress, Replay;
      ReplayOne(history, name, value);
      store := store[name := data];
      history := history + [(name, value)];
    }

    /** The writer thread takes one message. */
    method ApplyOne()
      requires Valid() && queue != []
      modifies this
      ensures Valid() && queue == old(queue)[1..] && wanted == old(wanted)[1..]
      ensures history == if GoodKey(old(queue)[0].name) then old(history) + [(old(queue)[0].name, old(wanted)[0])]
                         else old(history)
      ensures store == if GoodKey(old(queue)[0].name) then old(store)[old(queue)[0].name := old(queue)[0].data]
                       else old(store)
    {
      hide Uncompress;
      var msg := queue[0];
      if GoodKey(msg.name) { Apply(msg.name, msg.data, wanted[0]); }
      queue, wanted := queue[1..], wanted[1..];
    }

    /** With the compressed option the stored string is sent as it is. Without it the string is
        decoded first, unless it is empty. `unset` is what the variable for the length of the buffer
        holds before it is set. */
    method Get(name: Bytes, compressed: bool, unset: nat) returns (reply: Reply)
      requires Valid()
      ensures !GoodKey(name) <==> name == [] || |name| > 511
      ensures !GoodKey(name) ==> reply == ServerError
      ensures GoodKey(name) && name !in Replay(history) ==> reply == BadName
      ensures GoodKey(name) && name in Replay(history) && (compressed || Defined(store[name])) ==>
                ReplyFor(Replay(history)[name], compressed, store[name], reply)
      ensures GoodKey(name) && name in Replay(history) && !compressed && store[name] != [] ==>
                exists status, raw :: UnzipOutcome(store[name], unset, status, raw) && reply == ReplyOf(status, raw)
    {
      assert Uncompress([]) == None;
      hide Replay, Uncompress, Defined, UnzipOutcome;
      if !GoodKey(name) { return ServerError; }
      if name !in store { return BadName; }
      var data := store[name];
      if data != [] && !compressed {
        var status, raw := Unzip(data, unset);
        return ReplyOf(status, raw);
      }
      return Found(data);
    }

    /** snappy_uncompressed_length, whose failure is ignored, a buffer of the length that it has set,
        and snappy_uncompress. The decoder goes by the length that it reads itself; memory behind the
        buffer is there in the model in order to say what happens when that length is larger. */
    method Unzip(data: Bytes, unset: nat) returns (status: Status, raw: Bytes)
      ensures UnzipOutcome(data, unset, status, raw)
      ensures Defined(data) && status == Unzipped ==> Uncompress(data) == Some(raw)
      ensures Defined(data) && status != Unzipped ==> Uncompress(data) == None && status == Failed
    {
      hide RunTags, ReadLength, Parse, Untouched, Uncompress, Defined;
      StoredLengthOf(data);
      var unzipLen, len := BufferSize(data, unset), StoredLength(data);
      var memory := new byte[if unzipLen < len then len else unzipLen];
      assert Flatten([data]) == data;
      var rc, produced := InternalUncompress([data], memory, [0, 0, 0, 0, 0]);
      status := if unzipLen < len && produced > 0 then Overrun else if rc == 0 then Unzipped else Failed;
      raw := memory[..unzipLen];
      assert len <= unzipLen ==> raw[..len] == memory[..len];
      DefinedIff(data);
    }

    /** Compresses a raw payload into a buffer of the announced maximal size. */
    method Zip(payload: Bytes) returns (data: Bytes)
      requires |payload| < 0x1_0000_0000
      ensures ReadersAgree(data) && Uncompress(data) == Requested(payload, false)
    {
      hide Uncompress, Encode;
      var zipData := new byte[MaxCompressedLength(|payload|)](_ => 0);
      var zipLen := Compress(payload, zipData);
      zipData[zipLen] := 0;
      data := zipData[..zipLen];
      EncodedLengthIsAgreed(|payload|, data);
      if |payload| >= 0x8000_0000 { BareHeaderFails(|payload|); }
    }
  }

  function ReplyOf(status: Status, raw: Bytes): Reply {
    match status
    case Unzipped => Found(raw)
    case Failed => ServerError
    case Overrun => Reply.Undefined
  }

  /** The reply to a GET for a key with this value. */
  ghost predicate ReplyFor(value: Option<Bytes>, compressed: bool, stored: Bytes, reply: Reply) {
    if compressed then reply == Found(stored) && Uncompress(stored) == value
    else if value.Some? then reply == Found(value.value)
    else reply == if stored == [] then Found([]) else ServerError
  }
}
