/**
 * The test instrumentation singleton of tests/common/Instruments.cpp:
 * flags, one-shot and every-time event handlers, typed test values and
 * string probes. A handler is named by a number, and running handlers is
 * reported as the sequence of their numbers. The two event families of the
 * source (instrument events and numbered MEGAcmd events) share one key
 * type here; each key selects its own family's maps.
 */
module TestInstrumentsModel {
  import opened Wrappers

  datatype Flag = SOME_MEGACMD_INSTRUMENT_FLAG

  datatype Event = SERVER_ABOUT_TO_START_WAITING_FOR_PETITIONS | STALLED_ISSUES_LIST_UPDATED

  /** An event of either family. */
  datatype EventKey = Instrument(event: Event) | MegaCmd(number: int)

  datatype TestValue = AMIPRO_LEVEL | STALLED_ISSUES_LIST_SIZE

  const UINT64_LIMIT: nat := 0x1_0000_0000_0000_0000

  /** `TestValue_t`: the variant of a stored test value; a time point is a clock reading. */
  datatype Value = U64(u: nat) | I64(i: int) | Str(s: string) | TimePoint(t: int)

  /** The every-time handlers of an event, in registration order. */
  function HandlersFor(multi: seq<(EventKey, nat)>, key: EventKey): (r: seq<nat>)
    ensures |r| <= |multi|
    ensures forall h :: h in r ==> (key, h) in multi
  {
    if |multi| == 0 then []
    else HandlersFor(multi[..|multi| - 1], key) + (if multi[|multi| - 1].0 == key then [multi[|multi| - 1].1] else [])
  }

  /** The registrations that are not for the event. */
  function OtherEvents(multi: seq<(EventKey, nat)>, key: EventKey): (r: seq<(EventKey, nat)>)
    ensures forall p :: p in r <==> p in multi && p.0 != key
  {
    if |multi| == 0 then []
    else if multi[0].0 == key then OtherEvents(multi[1..], key)
    else [multi[0]] + OtherEvents(multi[1..], key)
  }

  /** Once an event's registrations are gone, firing it runs no every-time handler. */
  lemma NoHandlersAfterClear(multi: seq<(EventKey, nat)>, key: EventKey)
    ensures HandlersFor(OtherEvents(multi, key), key) == []
  {
    NoRegistrationNoHandlers(OtherEvents(multi, key), key);
  }

  /** An event with no registration has no every-time handler. */
  lemma {:induction false} NoRegistrationNoHandlers(multi: seq<(EventKey, nat)>, key: EventKey)
    requires forall p :: p in multi ==> p.0 != key
    ensures HandlersFor(multi, key) == []
  {
    if |multi| > 0 {
      NoRegistrationNoHandlers(multi[..|multi| - 1], key);
    }
  }

  class TestInstruments {
    var flags: set<Flag>
    var probes: set<string>
    var singleHandlers: map<EventKey, nat>
    var multiHandlers: seq<(EventKey, nat)>
    var testValues: map<TestValue, Value>

    constructor ()
      ensures flags == {} && probes == {} && singleHandlers == map[] && multiHandlers == [] && testValues == map[]
    {
      flags, probes := {}, {};
      singleHandlers, multiHandlers := map[], [];
      testValues := map[];
    }

    /** `clearAll`: flags, handlers and probes are cleared; test values are kept. */
    method ClearAll()
      modifies this
      ensures flags == {} && singleHandlers == map[] && multiHandlers == [] && probes == {}
      ensures testValues == old(testValues)
    {
      flags := {};
      ClearEvents();
      probes := {};
    }

    // ------------------------------------------------------------ flags

    /** `flag`. */
    predicate IsFlagSet(f: Flag)
      reads this
    {
      f in flags
    }

    method SetFlag(f: Flag)
      modifies this
      ensures flags == old(flags) + {f}
      ensures probes == old(probes) && singleHandlers == old(singleHandlers)
      ensures multiHandlers == old(multiHandlers) && testValues == old(testValues)
    {
      flags := flags + {f};
    }

    method ResetFlag(f: Flag)
      modifies this
      ensures flags == old(flags) - {f}
      ensures probes == old(probes) && singleHandlers == old(singleHandlers)
      ensures multiHandlers == old(multiHandlers) && testValues == old(testValues)
    {
      flags := flags - {f};
    }

    method ClearFlags()
      modifies this
      ensures flags == {}
      ensures probes == old(probes) && singleHandlers == old(singleHandlers)
      ensures multiHandlers == old(multiHandlers) && testValues == old(testValues)
    {
      flags := {};
    }

    /** `throwIfFlagAndReset`: a set flag is erased and thrown on; an absent one changes nothing. */
    method ThrowIfFlagAndReset(f: Flag) returns (thrown: bool)
      modifies this
      ensures thrown <==> f in old(flags)
      ensures flags == old(flags) - {f}
      ensures probes == old(probes) && singleHandlers == old(singleHandlers)
      ensures multiHandlers == old(multiHandlers) && testValues == old(testValues)
    {
      thrown := false;
      if f in flags {
        flags := flags - {f};
        thrown := true;
      }
    }

    // ------------------------------------------------------------ events

    /** `onEventOnce`: the one-shot handler replaces any earlier one for the event. */
    method OnEventOnce(key: EventKey, handler: nat)
      modifies this
      ensures singleHandlers == old(singleHandlers)[key := handler]
      ensures flags == old(flags) && probes == old(probes)
      ensures multiHandlers == old(multiHandlers) && testValues == old(testValues)
    {
      singleHandlers := singleHandlers[key := handler];
    }

    /** `onEveryEvent`: one more every-time handler, after those already registered. */
    method OnEveryEvent(key: EventKey, handler: nat)
      modifies this
      ensures multiHandlers == old(multiHandlers) + [(key, handler)]
      ensures flags == old(flags) && probes == old(probes)
      ensures singleHandlers == old(singleHandlers) && testValues == old(testValues)
    {
      multiHandlers := multiHandlers + [(key, handler)];
    }

    /** `clearEvent`: both the one-shot and the every-time handlers of the event go. */
    method ClearEvent(key: EventKey)
      modifies this
      ensures singleHandlers == old(singleHandlers) - {key}
      ensures multiHandlers == OtherEvents(old(multiHandlers), key)
      ensures flags == old(flags) && probes == old(probes) && testValues == old(testValues)
    {
      singleHandlers := singleHandlers - {key};
      multiHandlers := OtherEvents(multiHandlers, key);
    }

    method ClearEvents()
      modifies this
      ensures singleHandlers == map[] && multiHandlers == []
      ensures flags == old(flags) && probes == old(probes) && testValues == old(testValues)
    {
      singleHandlers := map[];
      multiHandlers := [];
    }

    /**
     * `fireEvent`: the every-time handlers run in order while the lock is
     * held; the one-shot handler is taken out first and runs after them.
     */
    method FireEvent(key: EventKey) returns (ran: seq<nat>)
      modifies this
      ensures ran == HandlersFor(old(multiHandlers), key) +
                     (if key in old(singleHandlers) then [old(singleHandlers)[key]] else [])
      ensures singleHandlers == old(singleHandlers) - {key}
      ensures multiHandlers == old(multiHandlers)
      ensures flags == old(flags) && probes == old(probes) && testValues == old(testValues)
    {
      var handlersToExecute: seq<nat> := [];
      if key in singleHandlers {
        handlersToExecute := [singleHandlers[key]];
        singleHandlers := singleHandlers - {key};
      }
      ran := CollectHandlers(multiHandlers, key);
      ran := ran + handlersToExecute;
    }

    // ------------------------------------------------------------ test values

    /** `testValue`. */
    function GetTestValue(key: TestValue): (r: Option<Value>)
      reads this
      ensures r.Some? <==> key in testValues
    {
      if key in testValues then Some(testValues[key]) else None
    }

    method SetTestValue(key: TestValue, value: Value)
      modifies this
      ensures testValues == old(testValues)[key := value]
      ensures flags == old(flags) && probes == old(probes)
      ensures singleHandlers == old(singleHandlers) && multiHandlers == old(multiHandlers)
    {
      testValues := testValues[key := value];
    }

    method ResetTestValue(key: TestValue)
      modifies this
      ensures testValues == old(testValues) - {key}
      ensures flags == old(flags) && probes == old(probes)
      ensures singleHandlers == old(singleHandlers) && multiHandlers == old(multiHandlers)
    {
      testValues := testValues - {key};
    }

    /**
     * `increaseTestValue`: an absent key is left absent; an unsigned value is
     * incremented with 64-bit wrap-around; a value of another kind makes
     * `std::get` throw and nothing changes.
     */
    method IncreaseTestValue(key: TestValue) returns (thrown: bool)
      requires forall k :: k in testValues && testValues[k].U64? ==> testValues[k].u < UINT64_LIMIT
      modifies this
      ensures key !in old(testValues) ==> testValues == old(testValues) && !thrown
      ensures key in old(testValues) && old(testValues)[key].U64? ==>
                !thrown && testValues == old(testValues)[key := U64((old(testValues)[key].u + 1) % UINT64_LIMIT)]
      ensures key in old(testValues) && !old(testValues)[key].U64? ==> thrown && testValues == old(testValues)
      ensures forall k :: k in testValues && testValues[k].U64? ==> testValues[k].u < UINT64_LIMIT
      ensures flags == old(flags) && probes == old(probes)
      ensures singleHandlers == old(singleHandlers) && multiHandlers == old(multiHandlers)
    {
      thrown := false;
      if key !in testValues {
        return;
      }
      var v := testValues[key];
      if !v.U64? {
        thrown := true;
        return;
      }
      testValues := testValues[key := U64((v.u + 1) % UINT64_LIMIT)];
    }

    method ClearTestValues()
      modifies this
      ensures testValues == map[]
      ensures flags == old(flags) && probes == old(probes)
      ensures singleHandlers == old(singleHandlers) && multiHandlers == old(multiHandlers)
    {
      testValues := map[];
    }

    // ------------------------------------------------------------ probes

    /** `probe`. */
    predicate HasProbe(str: string)
      reads this
    {
      str in probes
    }

    /** `probeCount`. */
    function ProbeCount(): nat
      reads this
    {
      |probes|
    }

    method SetProbe(str: string)
      modifies this
      ensures probes == old(probes) + {str}
      ensures flags == old(flags) && testValues == old(testValues)
      ensures singleHandlers == old(singleHandlers) && multiHandlers == old(multiHandlers)
    {
      probes := probes + {str};
    }

    method ClearProbes()
      modifies this
      ensures probes == {}
      ensures flags == old(flags) && testValues == old(testValues)
      ensures singleHandlers == old(singleHandlers) && multiHandlers == old(multiHandlers)
    {
      probes := {};
    }
  }

  /** The loop over an event's range of the every-time handlers. */
  method CollectHandlers(multi: seq<(EventKey, nat)>, key: EventKey) returns (ran: seq<nat>)
    ensures ran == HandlersFor(multi, key)
  {
    ran := [];
    var i := 0;
    while i < |multi|
      invariant 0 <= i <= |multi|
      invariant ran == HandlersFor(multi[..i], key)
    {
      assert multi[..i + 1][..i] == multi[..i];
      if multi[i].0 == key {
        ran := ran + [multi[i].1];
      }
      i := i + 1;
    }
    assert multi[..i] == multi;
  }

  /** A one-shot handler runs on the first firing and not on the second; every-time handlers run on both. */
  method FireTwice(ti: TestInstruments, key: EventKey, handler: nat) returns (first: seq<nat>, second: seq<nat>)
    modifies ti
    ensures first == HandlersFor(old(ti.multiHandlers), key) + [handler]
    ensures second == HandlersFor(old(ti.multiHandlers), key)
  {
    ti.OnEventOnce(key, handler);
    first := ti.FireEvent(key);
    second := ti.FireEvent(key);
  }

  /** Setting then resetting a flag, or a probe, reads back as expected. */
  method FlagRoundTrip(ti: TestInstruments, f: Flag) returns (afterSet: bool, afterReset: bool, thrown: bool)
    modifies ti
    ensures afterSet && !afterReset && !thrown
  {
    ti.SetFlag(f);
    afterSet := ti.IsFlagSet(f);
    ti.ResetFlag(f);
    afterReset := ti.IsFlagSet(f);
    thrown := ti.ThrowIfFlagAndReset(f);
  }
}
