/**
 * The statistics events of src/megacmd_events.h and src/megacmd_events.cpp:
 * one generator list gives each event its number and default message; two
 * tables indexed by (number - FIRST_EVENT_NUMBER) are filled from it once,
 * and the lookups read them.
 */
module MegaCmdEvents {

  datatype MegacmdEvent =
    | UPDATE | UPDATE_START | UPDATE_RESTART | FIRST_CONFIGURED_SYNC | WAITED_TOO_LONG_FOR_NODES_CURRENT

  const FIRST_EVENT_NUMBER: nat := 98900

  /** `LastEvent`: one past the last generated number. */
  const LAST_EVENT: nat := 98905

  const TABLE_SIZE: nat := LAST_EVENT - FIRST_EVENT_NUMBER

  /** One generator entry: the event, its identifier, its number and its default message. */
  datatype Entry = Entry(event: MegacmdEvent, name: string, number: nat, msg: string)

  /** `GENERATE_FROM_MEGACMD_EVENTS`. */
  const GENERATOR: seq<Entry> := [
    Entry(UPDATE, "UPDATE", 98900, "MEGAcmd update"),
    Entry(UPDATE_START, "UPDATE_START", 98901, "MEGAcmd auto-update start"),
    Entry(UPDATE_RESTART, "UPDATE_RESTART", 98902, "MEGAcmd updated requiring restart"),
    Entry(FIRST_CONFIGURED_SYNC, "FIRST_CONFIGURED_SYNC", 98903, "MEGAcmd first sync configured"),
    Entry(WAITED_TOO_LONG_FOR_NODES_CURRENT, "WAITED_TOO_LONG_FOR_NODES_CURRENT", 98904, "MEGAcmd nodes current wait timed out")
  ]

  /** The generator entry of an event. */
  function EntryOf(e: MegacmdEvent): (r: Entry)
    ensures r in GENERATOR && r.event == e
  {
    match e
    case UPDATE => GENERATOR[0]
    case UPDATE_START => GENERATOR[1]
    case UPDATE_RESTART => GENERATOR[2]
    case FIRST_CONFIGURED_SYNC => GENERATOR[3]
    case WAITED_TOO_LONG_FOR_NODES_CURRENT => GENERATOR[4]
  }

  /** The enum value of an event. */
  function Number(e: MegacmdEvent): nat
  {
    EntryOf(e).number
  }

  /** An event's slot in the tables. */
  function Index(e: MegacmdEvent): int
  {
    Number(e) - FIRST_EVENT_NUMBER
  }

  /** Every event's slot is inside the tables, and distinct events have distinct slots. */
  lemma IndexInBounds(e: MegacmdEvent, f: MegacmdEvent)
    ensures 0 <= Index(e) < TABLE_SIZE
    ensures e != f ==> Index(e) != Index(f)
  {
  }

  /** Every slot belongs to some event, so both tables are filled completely. */
  lemma EverySlotOwned(k: int)
    requires 0 <= k < TABLE_SIZE
    ensures exists e :: Index(e) == k
  {
    assert Index(GENERATOR[k].event) == k;
  }

  /** The generator's slots, read in list order, are 0, 1, 2, ... */
  lemma GeneratorSlots(i: int)
    requires 0 <= i < |GENERATOR|
    ensures GENERATOR[i].number - FIRST_EVENT_NUMBER == i && EntryOf(GENERATOR[i].event) == GENERATOR[i]
  {
  }

  /**
   * The static lambdas of `defaultEventMsg` and `eventName`: each generator
   * entry writes its message and its identifier into its slot.
   */
  method FillTables() returns (msgs: array<string>, names: array<string>)
    ensures fresh(msgs) && fresh(names)
    ensures msgs.Length == TABLE_SIZE && names.Length == TABLE_SIZE
    ensures forall e :: msgs[Index(e)] == EntryOf(e).msg && names[Index(e)] == EntryOf(e).name
  {
    msgs := new string[TABLE_SIZE](_ => "");
    names := new string[TABLE_SIZE](_ => "");
    var i := 0;
    while i < |GENERATOR|
      invariant 0 <= i <= |GENERATOR|
      invariant forall j :: 0 <= j < i ==> msgs[j] == GENERATOR[j].msg && names[j] == GENERATOR[j].name
    {
      GeneratorSlots(i);
      var entry := GENERATOR[i];
      msgs[entry.number - FIRST_EVENT_NUMBER] := entry.msg;
      names[entry.number - FIRST_EVENT_NUMBER] := entry.name;
      i := i + 1;
    }
    forall e
      ensures msgs[Index(e)] == EntryOf(e).msg && names[Index(e)] == EntryOf(e).name
    {
      IndexInBounds(e, e);
      GeneratorSlots(Index(e));
    }
  }

  /** `defaultEventMsg`: the table read at the event's slot. */
  function DefaultEventMsg(msgs: seq<string>, e: MegacmdEvent): string
    requires |msgs| == TABLE_SIZE
  {
    msgs[Index(e)]
  }

  /** `eventName`. */
  function EventName(names: seq<string>, e: MegacmdEvent): string
    requires |names| == TABLE_SIZE
  {
    names[Index(e)]
  }

  /** Read from the filled tables, each event gets the message it is paired with and its own identifier. */
  method Lookups(e: MegacmdEvent) returns (msg: string, name: string)
    ensures msg == EntryOf(e).msg && name == EntryOf(e).name
  {
    var msgs, names := FillTables();
    msg := DefaultEventMsg(msgs[..], e);
    name := EventName(names[..], e);
  }

  /** The identifiers are unique, so `eventName` tells every event apart. */
  lemma NamesDistinct(e: MegacmdEvent, f: MegacmdEvent)
    requires e != f
    ensures EntryOf(e).name != EntryOf(f).name
  {
  }
}
