/**
 Message files: the lists that are saved and loaded, and what loading a recorded list for
 sending does to the moments at which its messages are sent.
 */
module MsgFile {
  import opened Bytes
  import opened Options
  import opened DeltaList
  import opened Schedule
  import opened SendRun
  import HexData

  const U64_RANGE: nat := 0x1_0000_0000_0000_0000

  /** The values of `unsigned long long`. */
  type u64 = n: nat | n < U64_RANGE

  /** One message in a file. A property that is missing in the file reads as zero. */
  datatype FileEntry = FileEntry(
    id: string, data: string, delay: nat, repeat: nat, count: nat, timestamp: u64)

  /** A message in the log, with the moment it was sent or received. */
  datatype Logged = Logged(payload: Payload, timestamp: u64)

  /** Which messages the protocol can create: ID text and encoded data. A message that was
      created from some data has this data when it is encoded. */
  type Protocol = (string, seq<byte>) -> bool

  /** Create the message of an entry, if there is one and the protocol knows it. */
  function CreateMsg(entry: FileEntry, protocol: Protocol): Option<Payload> {
    if entry.id == "" && entry.data == "" then None
    else
      var data := HexData.Parsed(entry.data);
      if protocol(entry.id, data) then Some(Payload(entry.id, data)) else None
  }

  // ---- Saving -------------------------------------------------------------------------

  /** A recorded message; one without ID and data leaves no entry. */
  function RecvEntry(msg: Logged): seq<FileEntry> {
    var text := HexData.Printed(msg.payload.data);
    if msg.payload.id == "" && text == "" then []
    else [FileEntry(msg.payload.id, text, 0, 0, 0, msg.timestamp)]
  }

  function SavedRecv(msgs: seq<Logged>): seq<FileEntry> {
    if msgs == [] then [] else SavedRecv(msgs[..|msgs| - 1]) + RecvEntry(msgs[|msgs| - 1])
  }

  method ConvertRecvMsgList(msgs: seq<Logged>) returns (entries: seq<FileEntry>)
    ensures entries == SavedRecv(msgs)
  {
    entries := [];
    for k := 0 to |msgs|
      invariant entries == SavedRecv(msgs[..k])
    {
      var text := HexData.EncodeMsgData(msgs[k].payload.data);
      assert msgs[..k + 1][..k] == msgs[..k];
      if msgs[k].payload.id == "" && text == "" {
        continue;
      }
      entries := entries + [FileEntry(msgs[k].payload.id, text, 0, 0, 0, msgs[k].timestamp)];
    }
    assert msgs[..|msgs|] == msgs;
  }

  function SendEntry(item: Item): FileEntry {
    FileEntry(item.payload.id, HexData.Printed(item.payload.data), item.delay, item.repeat, item.count, 0)
  }

  /** A list for sending is saved message by message. */
  function SavedSend(items: seq<Item>): seq<FileEntry> {
    seq(|items|, i requires 0 <= i < |items| => SendEntry(items[i]))
  }

  method ConvertSendMsgList(items: seq<Item>) returns (entries: seq<FileEntry>)
    ensures entries == SavedSend(items)
  {
    entries := [];
    for k := 0 to |items|
      invariant entries == SavedSend(items[..k])
    {
      var text := HexData.EncodeMsgData(items[k].payload.data);
      var item := items[k];
      entries := entries + [FileEntry(item.payload.id, text, item.delay, item.repeat, item.count, 0)];
    }
    assert items[..|items|] == items;
  }

  // ---- Loading for sending ---------------------------------------------------------------

  /** Unsigned subtraction: a timestamp smaller than the one before wraps around. */
  function TimestampDiff(timestamp: u64, prev: u64): (r: u64)
    ensures (prev + r) % U64_RANGE == timestamp
  {
    if prev <= timestamp then timestamp - prev else timestamp - prev + U64_RANGE
  }

  /** What one entry becomes, and the timestamp that is remembered for the next one. */
  function LoadedItem(entry: FileEntry, payload: Payload, prev: u64): (Item, u64) {
    if entry.repeat == 0 && entry.count == 0 then
      if entry.delay != 0 then (Item(payload, entry.delay, 0, 1), prev)
      else if entry.timestamp == 0 then (Item(payload, 0, 0, 1), prev)
      else
        var first := if prev == 0 then entry.timestamp else prev;
        var delay := TimestampDiff(entry.timestamp, first);
        if delay <= 0 then (Item(payload, 0, 0, 1), first)
        else (Item(payload, delay, 0, 1), entry.timestamp)
    else (Item(payload, entry.delay, entry.repeat, entry.count), prev)
  }

  function LoadedSend(entries: seq<FileEntry>, protocol: Protocol, prev: u64): seq<Item>
    decreases |entries|
  {
    if entries == [] then []
    else
      match CreateMsg(entries[0], protocol)
      case None => LoadedSend(entries[1..], protocol, prev)
      case Some(payload) =>
        var (item, next) := LoadedItem(entries[0], payload, prev);
        [item] + LoadedSend(entries[1..], protocol, next)
  }

  /** The entry has neither delay nor repetition but a timestamp: it was probably received. */
  predicate IsRecord(entry: FileEntry) {
    entry.delay == 0 && entry.repeat == 0 && entry.count == 0 && entry.timestamp != 0
  }

  /** One entry. The delay of a record leads from the remembered timestamp, or from its own if
      there is none, to its timestamp, as far as unsigned numbers tell. Other entries keep their
      properties, but for a count that says how often a message without repetition is sent. */
  method LoadItem(entry: FileEntry, payload: Payload, prev: u64) returns (item: Item, prevTimestamp: u64)
    ensures (item, prevTimestamp) == LoadedItem(entry, payload, prev)
    ensures IsRecord(entry) ==>
              && item == Item(payload, item.delay, 0, 1)
              && prevTimestamp == entry.timestamp
              && ((if prev == 0 then entry.timestamp else prev) + item.delay) % U64_RANGE == entry.timestamp
    ensures !IsRecord(entry) ==>
              prevTimestamp == prev && item == Normalized(Item(payload, entry.delay, entry.repeat, entry.count))
  {
    var delay, repeatCount := entry.delay, entry.count;
    prevTimestamp := prev;
    if entry.repeat == 0 && repeatCount == 0 {
      repeatCount := 1;
      if delay == 0 && entry.timestamp != 0 {
        if prevTimestamp == 0 {
          prevTimestamp := entry.timestamp;
        }
        var delayTmp := TimestampDiff(entry.timestamp, prevTimestamp);
        if 0 < delayTmp {
          prevTimestamp := entry.timestamp;
          delay := delayTmp;
        }
      }
    }
    item := Item(payload, delay, entry.repeat, repeatCount);
  }

  method LoadSendMsgList(entries: seq<FileEntry>, protocol: Protocol) returns (items: seq<Item>)
    ensures items == LoadedSend(entries, protocol, 0)
  {
    items := [];
    var prevTimestamp: u64 := 0;
    assert entries[0..] == entries;
    for k := 0 to |entries|
      invariant items + LoadedSend(entries[k..], protocol, prevTimestamp) == LoadedSend(entries, protocol, 0)
    {
      LoadedStep(entries, k, protocol, prevTimestamp);
      hide LoadedSend, CreateMsg, LoadedItem;
      var entry := entries[k];
      var msg := CreateMsg(entry, protocol);
      if msg == None {
        continue;
      }
      var item;
      item, prevTimestamp := LoadItem(entry, msg.value, prevTimestamp);
      ghost var rest := LoadedSend(entries[k + 1..], protocol, prevTimestamp);
      assert items + ([item] + rest) == items + [item] + rest;
      items := items + [item];
    }
  }

  lemma LoadedStep(entries: seq<FileEntry>, k: nat, protocol: Protocol, prev: u64)
    requires k < |entries|
    ensures LoadedSend(entries[k..], protocol, prev) ==
            match CreateMsg(entries[k], protocol)
            case None => LoadedSend(entries[k + 1..], protocol, prev)
            case Some(payload) =>
              var (item, next) := LoadedItem(entries[k], payload, prev);
              [item] + LoadedSend(entries[k + 1..], protocol, next)
  {}

  // ---- Any list of entries -------------------------------------------------------------------

  /** An entry of a file and what the protocol created from it. */
  datatype Created = Created(entry: FileEntry, payload: Payload)

  /** The entries from which a message can be created. */
  function CreatedOf(entries: seq<FileEntry>, protocol: Protocol): seq<Created> {
    if entries == [] then []
    else
      (match CreateMsg(entries[0], protocol)
       case None => []
       case Some(payload) => [Created(entries[0], payload)]) + CreatedOf(entries[1..], protocol)
  }

  /** The timestamp of the last record, whatever other entries came after it. */
  function LastStamp(created: seq<Created>, prev: u64): u64 {
    if created == [] then prev
    else
      var last := created[|created| - 1].entry;
      if IsRecord(last) then last.timestamp else LastStamp(created[..|created| - 1], prev)
  }

  lemma {:induction false} LastStampBehind(created: seq<Created>, prev: u64)
    requires created != []
    ensures LastStamp(created, prev) ==
            LastStamp(created[1..], if IsRecord(created[0].entry) then created[0].entry.timestamp else prev)
  {
    var n := |created| - 1;
    if 0 < n {
      LastStampBehind(created[..n], prev);
      assert created[..n][1..] == created[1..][..n - 1];
    }
  }

  /** What an entry is to become, given the entries before it from which messages were created:
      a record is delayed by the distance from the last record before it, and the first record by
      nothing. */
  function ToSend(created: seq<Created>, j: nat, prev: u64): Item
    requires j < |created|
  {
    var entry, stamp := created[j].entry, LastStamp(created[..j], prev);
    if IsRecord(entry) then
      Item(created[j].payload, TimestampDiff(entry.timestamp, if stamp == 0 then entry.timestamp else stamp), 0, 1)
    else Normalized(Item(created[j].payload, entry.delay, entry.repeat, entry.count))
  }

  lemma LoadedIsToSend(entry: FileEntry, payload: Payload, prev: u64)
    ensures LoadedItem(entry, payload, prev) ==
            (ToSend([Created(entry, payload)], 0, prev), if IsRecord(entry) then entry.timestamp else prev)
  {}

  lemma ToSendBehind(created: seq<Created>, j: nat, prev: u64)
    requires 0 < j < |created|
    ensures ToSend(created, j, prev) ==
            ToSend(created[1..], j - 1, if IsRecord(created[0].entry) then created[0].entry.timestamp else prev)
  {
    LastStampBehind(created[..j], prev);
    assert created[..j][1..] == created[1..][..j - 1];
  }

  /** Any list of entries, records or not, is loaded as it is to be sent. */
  lemma {:induction false} LoadedAt(entries: seq<FileEntry>, protocol: Protocol, prev: u64, j: nat)
    ensures |LoadedSend(entries, protocol, prev)| == |CreatedOf(entries, protocol)|
    ensures j < |CreatedOf(entries, protocol)| ==>
              LoadedSend(entries, protocol, prev)[j] == ToSend(CreatedOf(entries, protocol), j, prev)
    decreases |entries|
  {
    if entries != [] {
      hide LoadedItem, CreateMsg, ToSend, IsRecord, CreatedOf;
      var entry, created, rest := entries[0], CreatedOf(entries, protocol), CreatedOf(entries[1..], protocol);
      CreatedFirst(entries, protocol);
      match CreateMsg(entry, protocol)
      case None => LoadedAt(entries[1..], protocol, prev, j);
      case Some(payload) =>
        LoadedIsToSend(entry, payload, prev);
        var next := if IsRecord(entry) then entry.timestamp else prev;
        LoadedAt(entries[1..], protocol, next, if 0 < j then j - 1 else 0);
        assert created[0] == Created(entry, payload) && created[1..] == rest;
        if 0 < j < |created| {
          ToSendBehind(created, j, prev);
        } else {
          ToSendFirst(created, prev);
        }
    } else {
      NoneCreated(protocol);
    }
  }

  lemma NoneCreated(protocol: Protocol)
    ensures CreatedOf([], protocol) == []
  {}

  lemma CreatedFirst(entries: seq<FileEntry>, protocol: Protocol)
    requires entries != []
    ensures var rest := CreatedOf(entries[1..], protocol);
            CreatedOf(entries, protocol) ==
            match CreateMsg(entries[0], protocol)
            case None => rest
            case Some(payload) => [Created(entries[0], payload)] + rest
  {
    hide CreateMsg;
    assert [] + CreatedOf(entries[1..], protocol) == CreatedOf(entries[1..], protocol);
  }

  lemma ToSendFirst(created: seq<Created>, prev: u64)
    requires created != []
    ensures ToSend(created, 0, prev) == ToSend([created[0]], 0, prev)
  {}

  // ---- Replay of a recorded list --------------------------------------------------------------

  /** The messages of a recorded list that survive being saved and loaded. */
  predicate Survives(msg: Logged, protocol: Protocol) {
    (msg.payload.id != "" || msg.payload.data != []) && protocol(msg.payload.id, msg.payload.data)
  }

  function Survivors(msgs: seq<Logged>, protocol: Protocol): (r: seq<Logged>)
    ensures forall i :: 0 <= i < |r| ==> r[i] in msgs
  {
    if msgs == [] then []
    else (if Survives(msgs[0], protocol) then [msgs[0]] else []) + Survivors(msgs[1..], protocol)
  }

  /** Every message has a timestamp. */
  ghost predicate Stamped(msgs: seq<Logged>) {
    forall i :: 0 <= i < |msgs| ==> 0 < msgs[i].timestamp
  }

  /** The send list for surviving messages, given the timestamp before them. */
  function Replay(msgs: seq<Logged>, prev: u64): (items: seq<Item>)
    ensures |items| == |msgs|
    decreases |msgs|
  {
    if msgs == [] then []
    else
      var delay := TimestampDiff(msgs[0].timestamp, if prev == 0 then msgs[0].timestamp else prev);
      [Item(msgs[0].payload, delay, 0, 1)] + Replay(msgs[1..], msgs[0].timestamp)
  }

  /** A message that was saved is created again exactly if it survives. */
  lemma SavedCreated(msg: Logged, protocol: Protocol)
    ensures RecvEntry(msg) == [] <==> msg.payload.id == "" && msg.payload.data == []
    ensures var saved := RecvEntry(msg);
            if Survives(msg, protocol)
            then saved != [] && CreateMsg(saved[0], protocol) == Some(msg.payload)
            else saved == [] || CreateMsg(saved[0], protocol) == None
  {
    HexData.PrintedNotEmpty(msg.payload.data);
    HexData.ParsePrinted(msg.payload.data);
  }

  /** The messages that are saved: those with an ID or data. */
  function NonEmpty(msgs: seq<Logged>): seq<Logged> {
    if msgs == [] then []
    else
      var last := msgs[|msgs| - 1];
      NonEmpty(msgs[..|msgs| - 1]) + (if last.payload == Payload("", []) then [] else [last])
  }

  /** There is one entry for each of them, from which it can be read back, and no other. */
  lemma {:induction false} SavedRecvAt(msgs: seq<Logged>, i: nat)
    ensures |SavedRecv(msgs)| == |NonEmpty(msgs)|
    ensures i < |NonEmpty(msgs)| ==>
              var entry, msg := SavedRecv(msgs)[i], NonEmpty(msgs)[i];
              && entry.id == msg.payload.id && HexData.Parsed(entry.data) == msg.payload.data
              && entry.delay == 0 && entry.repeat == 0 && entry.count == 0
              && entry.timestamp == msg.timestamp
  {
    if msgs != [] {
      var last := msgs[|msgs| - 1];
      SavedRecvAt(msgs[..|msgs| - 1], i);
      HexData.PrintedNotEmpty(last.payload.data);
      HexData.ParsePrinted(last.payload.data);
    }
  }

  lemma {:induction false} SavedRecvFront(msgs: seq<Logged>)
    requires msgs != []
    ensures SavedRecv(msgs) == RecvEntry(msgs[0]) + SavedRecv(msgs[1..])
  {
    var last := |msgs| - 1;
    if last > 0 {
      SavedRecvFront(msgs[..last]);
      assert msgs[..last][1..] == msgs[1..][..last - 1];
    }
  }

  /** Saving a recorded list and loading it for sending gives the surviving messages, each once,
      with the differences of the timestamps as delays. */
  lemma {:induction false} RecordedLoads(msgs: seq<Logged>, protocol: Protocol, prev: u64)
    requires Stamped(msgs)
    ensures LoadedSend(SavedRecv(msgs), protocol, prev) == Replay(Survivors(msgs, protocol), prev)
    decreases |msgs|
  {
    if msgs != [] {
      SavedRecvFront(msgs);
      SavedCreated(msgs[0], protocol);
      RecordedLoads(msgs[1..], protocol, prev);
      RecordedLoads(msgs[1..], protocol, msgs[0].timestamp);
      var entries, rest := SavedRecv(msgs), SavedRecv(msgs[1..]);
      var survivors, others := Survivors(msgs, protocol), Survivors(msgs[1..], protocol);
      hide CreateMsg, SavedRecv, Survives;
      if RecvEntry(msgs[0]) == [] {
        assert entries == rest && survivors == others;
      } else {
        var entry := RecvEntry(msgs[0])[0];
        assert entries == [entry] + rest;
        LoadedStep(entries, 0, protocol, prev);
        assert entries[0..] == entries && entries[1..] == rest;
        if Survives(msgs[0], protocol) {
          LoadedStamped(entry, msgs[0].payload, prev);
          assert survivors == [msgs[0]] + others && survivors[1..] == others;
        } else {
          assert survivors == others;
        }
      }
    }
  }

  lemma LoadedStamped(entry: FileEntry, payload: Payload, prev: u64)
    requires entry.delay == 0 && entry.repeat == 0 && entry.count == 0
    requires 0 < entry.timestamp
    ensures var first := if prev == 0 then entry.timestamp else prev;
            LoadedItem(entry, payload, prev) ==
            (Item(payload, TimestampDiff(entry.timestamp, first), 0, 1), entry.timestamp)
  {}

  ghost predicate NonDecreasing(msgs: seq<Logged>) {
    forall i, j :: 0 <= i <= j < |msgs| ==> msgs[i].timestamp <= msgs[j].timestamp
  }

  lemma {:induction false} ReplayAt(msgs: seq<Logged>, prev: u64, i: nat)
    requires Stamped(msgs) && i < |msgs|
    ensures var before := if i > 0 then msgs[i - 1].timestamp else if prev == 0 then msgs[0].timestamp else prev;
            Replay(msgs, prev)[i] == Item(msgs[i].payload, TimestampDiff(msgs[i].timestamp, before), 0, 1)
    decreases i
  {
    if i > 0 {
      ReplayAt(msgs[1..], msgs[0].timestamp, i - 1);
    }
  }

  /** The moment of a replayed message keeps the spacing of the record up to it. */
  ghost predicate SpacingKept(start: nat, msgs: seq<Logged>, i: nat)
    requires i < |msgs|
  {
    FirstDeadline(Plan(start, Replay(msgs, 0)), i) == start + msgs[i].timestamp - msgs[0].timestamp
  }

  /** One message further: its spacing is kept if its timestamp is not smaller. */
  lemma SpacingStep(start: nat, msgs: seq<Logged>, i: nat)
    requires Stamped(msgs) && i + 1 < |msgs|
    requires SpacingKept(start, msgs, i)
    ensures SpacingKept(start, msgs, i + 1) <==> msgs[i].timestamp <= msgs[i + 1].timestamp
  {
    ReplayAt(msgs, 0, i + 1);
  }

  lemma SpacingStart(start: nat, msgs: seq<Logged>)
    requires Stamped(msgs) && msgs != []
    ensures SpacingKept(start, msgs, 0)
  {}

  lemma {:induction false} SpacingUpTo(start: nat, msgs: seq<Logged>, i: nat)
    requires Stamped(msgs) && NonDecreasing(msgs) && i < |msgs|
    ensures SpacingKept(start, msgs, i)
  {
    if i == 0 {
      SpacingStart(start, msgs);
    } else {
      SpacingUpTo(start, msgs, i - 1);
      SpacingStep(start, msgs, i - 1);
    }
  }

  lemma {:induction false} OrderUpTo(start: nat, msgs: seq<Logged>, i: nat, j: nat)
    requires Stamped(msgs) && i <= j < |msgs|
    requires forall k :: 0 <= k < |msgs| ==> SpacingKept(start, msgs, k)
    ensures msgs[i].timestamp <= msgs[j].timestamp
    decreases j
  {
    if i < j {
      OrderUpTo(start, msgs, i, j - 1);
      SpacingStep(start, msgs, j - 1);
    }
  }

  /** Every message keeps its distance in time from the first one exactly when the timestamps
      never decrease. */
  lemma SpacingExactly(start: nat, msgs: seq<Logged>)
    requires Stamped(msgs)
    ensures (forall i :: 0 <= i < |msgs| ==> SpacingKept(start, msgs, i)) <==> NonDecreasing(msgs)
  {
    if NonDecreasing(msgs) {
      forall i | 0 <= i < |msgs|
        ensures SpacingKept(start, msgs, i)
      {
        SpacingUpTo(start, msgs, i);
      }
    }
    if forall i :: 0 <= i < |msgs| ==> SpacingKept(start, msgs, i) {
      forall i, j | 0 <= i <= j < |msgs|
        ensures msgs[i].timestamp <= msgs[j].timestamp
      {
        OrderUpTo(start, msgs, i, j);
      }
    }
  }

  /** A record of two messages in which the second timestamp is smaller by two: loaded for
      sending, the second message waits almost for ever. */
  lemma DecreasingRecord(payload: Payload, protocol: Protocol)
    requires Survives(Logged(payload, 5), protocol)
    ensures LoadedSend(SavedRecv([Logged(payload, 5), Logged(payload, 3)]), protocol, 0)
         == [Item(payload, 0, 0, 1), Item(payload, U64_RANGE - 2, 0, 1)]
  {
    var first, second := Logged(payload, 5), Logged(payload, 3);
    RecordedLoads([first, second], protocol, 0);
    assert [first, second][1..] == [second] && [second][1..] == [];
    assert Survivors([second], protocol) == [second];
    assert Survivors([first, second], protocol) == [first, second];
    assert Replay([second], 5) == [Item(payload, U64_RANGE - 2, 0, 1)];
  }

  /** A list without repetition is sent message by message, and the run is complete after at
      most as many timeouts as there are messages. */
  lemma OnceEach(plan: Plan, n: nat)
    requires forall i :: 0 <= i < |plan.msgs| ==> plan.msgs[i].repeat == 0
    requires |plan.msgs| <= n
    ensures After(plan, n).queue == []
    ensures After(plan, n).log == LogOf(plan, FirstCopies(plan))
  {
    OncePending(plan.msgs);
    Completes(plan, n);
    var sent := ExactSchedule(plan, n);
    var first := FirstCopies(plan);
    StartConsistent(plan);
    assert [] + first == first;
    forall c
      ensures c in sent <==> c in first
    {
      if Wanted(plan, c) {
        assert first[c.msg] == c;
      }
    }
    OrderedUnique(plan, sent, first);
  }

  lemma {:induction false} OncePending(items: seq<Item>)
    requires forall i :: 0 <= i < |items| ==> items[i].repeat == 0
    ensures TotalPending(items) == |items|
  {
    if items != [] {
      OncePending(items[1..]);
    }
  }

  /** Replay: a record whose timestamps never decrease, saved, loaded for sending and sent, goes
      out message by message with the spacing it was recorded with. */
  lemma ReplayKeepsSpacing(start: nat, msgs: seq<Logged>, protocol: Protocol, n: nat)
    requires Stamped(msgs)
    requires NonDecreasing(Survivors(msgs, protocol))
    requires |Survivors(msgs, protocol)| <= n
    ensures var survivors := Survivors(msgs, protocol);
            var run := After(Plan(start, LoadedSend(SavedRecv(msgs), protocol, 0)), n);
            && run.queue == []
            && |run.log| == |survivors|
            && forall i :: 0 <= i < |survivors| ==>
                 run.log[i] == Sent(start + (survivors[i].timestamp - survivors[0].timestamp), survivors[i].payload)
  {
    var survivors := Survivors(msgs, protocol);
    RecordedLoads(msgs, protocol, 0);
    var plan := Plan(start, Replay(survivors, 0));
    assert Stamped(survivors);
    forall i | 0 <= i < |survivors|
      ensures plan.msgs[i].repeat == 0 && plan.msgs[i].payload == survivors[i].payload
      ensures Deadline(plan, Copy(i, 0)) == start + (survivors[i].timestamp - survivors[0].timestamp)
    {
      ReplayAt(survivors, 0, i);
      SpacingUpTo(start, survivors, i);
    }
    OnceEach(plan, n);
  }

  // ---- Round trip of a send list ---------------------------------------------------------------

  /** What loading makes of a message without repeat duration and count. */
  function Normalized(item: Item): Item {
    if item.repeat == 0 && item.count == 0 then item.(count := 1) else item
  }

  function AllNormalized(items: seq<Item>): (r: seq<Item>)
    ensures |r| == |items|
    ensures forall i :: 0 <= i < |r| ==> r[i] == Normalized(items[i])
  {
    if items == [] then [] else [Normalized(items[0])] + AllNormalized(items[1..])
  }

  /** The protocol can create the message again. */
  predicate CanLoad(item: Item, protocol: Protocol) {
    Survives(Logged(item.payload, 0), protocol)
  }

  ghost predicate Loadable(items: seq<Item>, protocol: Protocol) {
    forall i :: 0 <= i < |items| ==> CanLoad(items[i], protocol)
  }

  /** The messages of a list that can be created again. */
  function Loadables(items: seq<Item>, protocol: Protocol): (r: seq<Item>)
    ensures |r| <= |items|
    ensures |r| == |items| ==> Loadable(items, protocol)
    ensures Loadable(items, protocol) ==> r == items
    ensures Loadable(r, protocol)
  {
    if items == [] then []
    else (if CanLoad(items[0], protocol) then [items[0]] else []) + Loadables(items[1..], protocol)
  }

  lemma SendEntryCreated(item: Item, protocol: Protocol)
    ensures CreateMsg(SendEntry(item), protocol) ==
            if CanLoad(item, protocol) then Some(item.payload) else None
  {
    HexData.PrintedNotEmpty(item.payload.data);
    HexData.ParsePrinted(item.payload.data);
  }

  /** Loading a saved send list gives the messages that can be created again, with the count of
      one-time messages made explicit. */
  lemma {:induction false} SendListLoads(items: seq<Item>, protocol: Protocol)
    ensures LoadedSend(SavedSend(items), protocol, 0) == AllNormalized(Loadables(items, protocol))
  {
    if items != [] {
      var item := items[0];
      SendEntryCreated(item, protocol);
      SendEntryLoaded(item);
      SendListLoads(items[1..], protocol);
      var entries := SavedSend(items);
      assert entries[0] == SendEntry(item) && entries[1..] == SavedSend(items[1..]);
      hide CreateMsg, SavedSend, SendEntry, LoadedItem, Normalized, CanLoad;
      LoadedStep(entries, 0, protocol, 0);
      assert entries[0..] == entries;
    }
  }

  lemma SendEntryLoaded(item: Item)
    ensures LoadedItem(SendEntry(item), item.payload, 0) == (Normalized(item), 0)
  {}

  /** The loaded list is the saved one exactly when all its messages can be created again and none
      lacks both repeat duration and count. */
  lemma SendListRoundTripExactly(items: seq<Item>, protocol: Protocol)
    ensures LoadedSend(SavedSend(items), protocol, 0) == items <==>
            && Loadable(items, protocol)
            && (forall i :: 0 <= i < |items| ==> items[i].repeat != 0 || items[i].count != 0)
  {
    SendListLoads(items, protocol);
    var loaded := AllNormalized(Loadables(items, protocol));
    if loaded == items {
      forall i | 0 <= i < |items|
        ensures items[i].repeat != 0 || items[i].count != 0
      {
        assert loaded[i] == Normalized(items[i]);
      }
    }
  }

  /** A message without repeat duration and count is sent once. */
  lemma CountMadeOne(payload: Payload, delay: nat, protocol: Protocol)
    requires Survives(Logged(payload, 0), protocol)
    ensures LoadedSend(SavedSend([Item(payload, delay, 0, 0)]), protocol, 0) == [Item(payload, delay, 0, 1)]
  {
    var items := [Item(payload, delay, 0, 0)];
    SendListLoads(items, protocol);
    assert items[1..] == [];
    assert Loadables(items, protocol) == items;
  }

  /** An entry without ID whose text holds no digits still asks the protocol for a message, one
      without data. */
  lemma NoDigitsStillCreated(entry: FileEntry, protocol: Protocol)
    requires entry.data != "" && HexData.Stripped(entry.data) == ""
    ensures CreateMsg(entry, protocol) ==
            if protocol(entry.id, []) then Some(Payload(entry.id, [])) else None
  {
    HexData.ParsedNumber(entry.data);
  }

  // ---- The run of a loaded send list -------------------------------------------------------------

  /** The delays of the messages that are lost. */
  function LostDelay(items: seq<Item>, protocol: Protocol): nat {
    if items == [] then 0
    else (if CanLoad(items[0], protocol) then 0 else items[0].delay) + LostDelay(items[1..], protocol)
  }

  /** The deadlines behind the first message, seen from there. */
  lemma {:induction false} DeadlineBehind(start: nat, items: seq<Item>, i: nat)
    requires 0 < i < |items|
    ensures FirstDeadline(Plan(start, items), i) == FirstDeadline(Plan(start, items[1..]), i - 1) + items[0].delay
  {
    if 1 < i {
      DeadlineBehind(start, items, i - 1);
    } else {
      assert FirstDeadline(Plan(start, items), 0) == start + items[0].delay;
    }
  }

  /** The first message, and then the rest of the front part. */
  lemma FrontPart(items: seq<Item>, protocol: Protocol, i: nat)
    requires 0 < i <= |items|
    ensures var front := if CanLoad(items[0], protocol) then [items[0]] else [];
            && Loadables(items[..i], protocol) == front + Loadables(items[1..][..i - 1], protocol)
            && LostDelay(items[..i], protocol) ==
               (if front == [] then items[0].delay else 0) + LostDelay(items[1..][..i - 1], protocol)
  {
    assert items[..i][1..] == items[1..][..i - 1] && items[..i][0] == items[0];
  }

  /** A message of the list has its place among those that are not lost, and is due there earlier,
      by the delays lost before it. */
  ghost predicate DueEarlier(start: nat, items: seq<Item>, protocol: Protocol, i: nat)
    requires i < |items|
  {
    var j, loaded := |Loadables(items[..i], protocol)|, Loadables(items, protocol);
    && j < |loaded| && loaded[j] == items[i]
    && FirstDeadline(Plan(start, loaded), j) + LostDelay(items[..i], protocol) == FirstDeadline(Plan(start, items), i)
  }

  lemma {:induction false} FirstDeadlineLoaded(start: nat, items: seq<Item>, protocol: Protocol, i: nat)
    requires i < |items| && CanLoad(items[i], protocol)
    ensures DueEarlier(start, items, protocol, i)
    decreases i
  {
    if 0 < i {
      FirstDeadlineLoaded(start, items[1..], protocol, i - 1);
      DueEarlierBehind(start, items, protocol, i);
    }
  }

  lemma DueEarlierBehind(start: nat, items: seq<Item>, protocol: Protocol, i: nat)
    requires 0 < i < |items|
    requires DueEarlier(start, items[1..], protocol, i - 1)
    ensures DueEarlier(start, items, protocol, i)
  {
    hide FirstDeadline, Loadables, LostDelay, CanLoad, Loadable;
    var rest := items[1..];
    FrontPart(items, protocol, i);
    FrontPart(items, protocol, |items|);
    assert items[..|items|] == items && rest[..|items| - 1] == rest;
    DeadlineBehind(start, items, i);
    var j, loaded := |Loadables(items[..i], protocol)|, Loadables(items, protocol);
    if CanLoad(items[0], protocol) {
      assert loaded[1..] == Loadables(rest, protocol);
      DeadlineBehind(start, loaded, j);
    } else {
      assert loaded == Loadables(rest, protocol);
    }
  }

  lemma {:induction false} FirstDeadlineNormalized(start: nat, items: seq<Item>, i: nat)
    requires i < |items|
    ensures FirstDeadline(Plan(start, AllNormalized(items)), i) == FirstDeadline(Plan(start, items), i)
  {
    if 0 < i {
      FirstDeadlineNormalized(start, items, i - 1);
    }
  }

  /** A message that is lost takes its delay with it: in the loaded list every later message
      stands at the place `j` it has among those that are not lost, and each of its copies is sent
      earlier by exactly the delays lost before it. */
  lemma LostDelaysShift(start: nat, items: seq<Item>, protocol: Protocol, i: nat, k: nat)
    requires i < |items| && CanLoad(items[i], protocol)
    ensures var j, loaded := |Loadables(items[..i], protocol)|, LoadedSend(SavedSend(items), protocol, 0);
            && j < |loaded| && loaded[j] == Normalized(items[i])
            && (Wanted(Plan(start, loaded), Copy(j, k)) <==> Wanted(Plan(start, items), Copy(i, k)))
            && Deadline(Plan(start, loaded), Copy(j, k)) + LostDelay(items[..i], protocol) ==
               Deadline(Plan(start, items), Copy(i, k))
  {
    SendListLoads(items, protocol);
    FirstDeadlineLoaded(start, items, protocol, i);
    FirstDeadlineNormalized(start, Loadables(items, protocol), |Loadables(items[..i], protocol)|);
    hide LoadedSend, SavedSend, Loadables, LostDelay, FirstDeadline;
  }

  lemma {:induction false} NormalizedReinsert(queue: seq<Item>, item: Item, delay: nat)
    ensures Reinsert(AllNormalized(queue), Normalized(item), delay) == AllNormalized(Reinsert(queue, item, delay))
    decreases |queue|
  {
    var put := Reinsert(queue, item, delay);
    if queue != [] && queue[0].delay <= delay {
      NormalizedReinsert(queue[1..], item, delay - queue[0].delay);
      assert AllNormalized(queue)[1..] == AllNormalized(queue[1..]);
    }
    assert Reinsert(AllNormalized(queue), Normalized(item), delay) == AllNormalized(put);
  }

  lemma {:induction false} NormalizedReinsertAll(queue: seq<Item>, due: seq<Item>)
    ensures ReinsertAll(AllNormalized(queue), AllNormalized(due)) == AllNormalized(ReinsertAll(queue, due))
    decreases |due|
  {
    if due != [] {
      var item := due[0];
      assert AllNormalized(due)[1..] == AllNormalized(due[1..]);
      if IsRepeated(item) {
        NormalizedReinsert(queue, Repeated(item), item.repeat);
        NormalizedReinsertAll(Reinsert(queue, Repeated(item), item.repeat), due[1..]);
      } else {
        NormalizedReinsertAll(queue, due[1..]);
      }
    }
  }

  lemma {:induction false} NormalizedDueCount(queue: seq<Item>)
    ensures DueCount(AllNormalized(queue)) == DueCount(queue)
  {
    if queue != [] {
      NormalizedDueCount(queue[1..]);
      assert AllNormalized(queue)[1..] == AllNormalized(queue[1..]);
    }
  }

  /** The run with the explicit counts: the same, but for its list. */
  function NormalizedRun(run: Run): Run {
    run.(queue := AllNormalized(run.queue))
  }

  lemma NormalizedStep(run: Run)
    ensures StepRun(NormalizedRun(run)) == NormalizedRun(StepRun(run))
  {
    hide DueCount, ReinsertAll, AllNormalized;
    var queue := run.queue;
    var n := DueCount(queue);
    NormalizedDueCount(queue);
    assert AllNormalized(queue)[..n] == AllNormalized(queue[..n]);
    assert AllNormalized(queue)[n..] == AllNormalized(queue[n..]);
    NormalizedReinsertAll(queue[n..], queue[..n]);
    var rest := ReinsertAll(queue[n..], queue[..n]);
    assert SendsOf(run.time, queue[..n]) == SendsOf(run.time, AllNormalized(queue[..n]));
    if rest != [] {
      var head := [rest[0].(delay := 0)] + rest[1..];
      var normalized := AllNormalized(rest);
      assert [normalized[0].(delay := 0)] + normalized[1..] == AllNormalized(head);
    }
  }

  lemma {:induction false} NormalizedAfter(start: nat, items: seq<Item>, n: nat)
    ensures After(Plan(start, AllNormalized(items)), n) == NormalizedRun(After(Plan(start, items), n))
  {
    if n == 0 {
      NormalizedStep(Run(items, start, [], 0));
    } else {
      NormalizedAfter(start, items, n - 1);
      NormalizedStep(After(Plan(start, items), n - 1));
    }
  }

  /** A list of which the first message is lost: the second, which was to be sent after five
      milliseconds, is sent at once. */
  lemma FirstMessageLost(start: nat, lost: Payload, kept: Payload, protocol: Protocol)
    requires !Survives(Logged(lost, 0), protocol) && Survives(Logged(kept, 0), protocol)
    ensures var items := [Item(lost, 5, 0, 1), Item(kept, 0, 0, 1)];
            var loaded := LoadedSend(SavedSend(items), protocol, 0);
            && loaded == [Item(kept, 0, 0, 1)]
            && FirstDeadline(Plan(start, items), 1) == start + 5
            && FirstDeadline(Plan(start, loaded), 0) == start
  {
    var items := [Item(lost, 5, 0, 1), Item(kept, 0, 0, 1)];
    SendListLoads(items, protocol);
    assert items[1..] == [items[1]] && items[1..][1..] == [];
    assert Loadables(items[1..], protocol) == [items[1]];
    assert Loadables(items, protocol) == [items[1]];
    assert [items[1]][1..] == [];
    assert FirstDeadline(Plan(start, items), 0) == start + 5;
  }

  /** The run of a loaded list is that of the messages that are not lost. */
  lemma LoadedRun(start: nat, items: seq<Item>, protocol: Protocol, n: nat)
    ensures var loaded := LoadedSend(SavedSend(items), protocol, 0);
            After(Plan(start, loaded), n) == NormalizedRun(After(Plan(start, Loadables(items, protocol)), n))
  {
    SendListLoads(items, protocol);
    NormalizedAfter(start, Loadables(items, protocol), n);
  }

  /** Only messages of the list are sent. */
  lemma NotSent(plan: Plan, n: nat, s: Sent)
    requires forall i :: 0 <= i < |plan.msgs| ==> plan.msgs[i].payload != s.payload
    ensures s !in After(plan, n).log
  {
    var sent := ExactSchedule(plan, n);
    hide After;
    forall i | 0 <= i < |sent|
      ensures LogOf(plan, sent)[i].payload != s.payload
    {
      assert LogOf(plan, sent)[i].payload == plan.msgs[sent[i].msg].payload;
    }
  }

  /** A lost message is missing in the run of the loaded list, at the latest when its moment has
      passed. */
  lemma LostMessageMissing(start: nat, items: seq<Item>, protocol: Protocol, i: nat) returns (n: nat)
    requires i < |items| && !CanLoad(items[i], protocol)
    ensures After(Plan(start, Loadables(items, protocol)), n).log != After(Plan(start, items), n).log
  {
    var plan, loaded := Plan(start, items), Loadables(items, protocol);
    n := FirstDeadline(plan, i);
    var s := Sent(n, items[i].payload);
    EveryCopySent(plan, Copy(i, 0), n);
    assert s in After(plan, n).log;
    forall j | 0 <= j < |loaded|
      ensures loaded[j].payload != s.payload
    {
      assert CanLoad(loaded[j], protocol);
    }
    NotSent(Plan(start, loaded), n, s);
  }

  /** Saving and loading a send list changes nothing about what is sent, and when, and about the
      completion of the run, exactly if all its messages can be created again. */
  lemma SendListSameRunExactly(start: nat, items: seq<Item>, protocol: Protocol)
    ensures (forall n: nat :: After(Plan(start, LoadedSend(SavedSend(items), protocol, 0)), n)
                           == NormalizedRun(After(Plan(start, items), n)))
       <==> Loadable(items, protocol)
  {
    var loaded := LoadedSend(SavedSend(items), protocol, 0);
    hide After, LoadedSend, SavedSend, AllNormalized, CanLoad;
    forall n: nat
      ensures After(Plan(start, loaded), n) == NormalizedRun(After(Plan(start, Loadables(items, protocol)), n))
    {
      LoadedRun(start, items, protocol, n);
    }
    if i :| 0 <= i < |items| && !CanLoad(items[i], protocol) {
      var n := LostMessageMissing(start, items, protocol, i);
      assert After(Plan(start, loaded), n) != NormalizedRun(After(Plan(start, items), n));
    }
  }
}
