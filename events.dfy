/**
 * The observable effects of the two sensor tasks, in program order: bus
 * transfers to the sensor, timer waits, commands sent to the LED channel,
 * samples handed to the VOC gas-index algorithm and the store of the
 * conditioning-done flag. Bus results and received bytes are inputs of the
 * tasks, not part of the trace.
 */
module Events {
  import opened Base
  import opened Led

  datatype Event =
    | Write(addr: u8, bytes: seq<u8>)
    | Read(addr: u8, len: nat)
    | Sleep(ms: nat)
    | Send(command: LedCommand)
    | VocSample(raw: int)
    | ConditionDone

  predicate IsBusOp(e: Event) {
    e.Write? || e.Read?
  }

  /** The LED commands a trace sends, in order. */
  function Sent(t: seq<Event>): seq<LedCommand> {
    if t == [] then []
    else (if t[0].Send? then [t[0].command] else []) + Sent(t[1..])
  }

  /** The number of bus transfers in a trace. */
  function BusOps(t: seq<Event>): nat {
    if t == [] then 0 else (if IsBusOp(t[0]) then 1 else 0) + BusOps(t[1..])
  }

  /** The number of `ConditionDone` stores in a trace. */
  function DoneStores(t: seq<Event>): nat {
    if t == [] then 0 else (if t[0] == ConditionDone then 1 else 0) + DoneStores(t[1..])
  }

  /** The total time a trace spends sleeping, in milliseconds. */
  function SleptMs(t: seq<Event>): nat {
    if t == [] then 0 else (if t[0].Sleep? then t[0].ms else 0) + SleptMs(t[1..])
  }

  /** The samples a trace feeds to the gas-index algorithm, in order. */
  function Samples(t: seq<Event>): seq<int> {
    if t == [] then [] else (if t[0].VocSample? then [t[0].raw] else []) + Samples(t[1..])
  }

  lemma {:induction false} SentAppend(a: seq<Event>, b: seq<Event>)
    ensures Sent(a + b) == Sent(a) + Sent(b)
  {
    if a == [] {
      assert a + b == b;
    } else {
      assert (a + b)[0] == a[0];
      assert (a + b)[1..] == a[1..] + b;
      SentAppend(a[1..], b);
    }
  }

  lemma {:induction false} BusOpsAppend(a: seq<Event>, b: seq<Event>)
    ensures BusOps(a + b) == BusOps(a) + BusOps(b)
  {
    if a == [] {
      assert a + b == b;
    } else {
      assert (a + b)[0] == a[0];
      assert (a + b)[1..] == a[1..] + b;
      BusOpsAppend(a[1..], b);
    }
  }

  lemma {:induction false} DoneStoresAppend(a: seq<Event>, b: seq<Event>)
    ensures DoneStores(a + b) == DoneStores(a) + DoneStores(b)
  {
    if a == [] {
      assert a + b == b;
    } else {
      assert (a + b)[0] == a[0];
      assert (a + b)[1..] == a[1..] + b;
      DoneStoresAppend(a[1..], b);
    }
  }

  lemma {:induction false} SleptMsAppend(a: seq<Event>, b: seq<Event>)
    ensures SleptMs(a + b) == SleptMs(a) + SleptMs(b)
  {
    if a == [] {
      assert a + b == b;
    } else {
      assert (a + b)[0] == a[0];
      assert (a + b)[1..] == a[1..] + b;
      SleptMsAppend(a[1..], b);
    }
  }

  lemma {:induction false} SamplesAppend(a: seq<Event>, b: seq<Event>)
    ensures Samples(a + b) == Samples(a) + Samples(b)
  {
    if a == [] {
      assert a + b == b;
    } else {
      assert (a + b)[0] == a[0];
      assert (a + b)[1..] == a[1..] + b;
      SamplesAppend(a[1..], b);
    }
  }

  /** All five projections distribute over concatenation. */
  lemma ProjectionsAppend(a: seq<Event>, b: seq<Event>)
    ensures Sent(a + b) == Sent(a) + Sent(b)
    ensures BusOps(a + b) == BusOps(a) + BusOps(b)
    ensures DoneStores(a + b) == DoneStores(a) + DoneStores(b)
    ensures SleptMs(a + b) == SleptMs(a) + SleptMs(b)
    ensures Samples(a + b) == Samples(a) + Samples(b)
  {
    SentAppend(a, b);
    BusOpsAppend(a, b);
    DoneStoresAppend(a, b);
    SleptMsAppend(a, b);
    SamplesAppend(a, b);
  }

  /**
   * The effects of consecutive passes of a task's loop body, one pass per
   * input, where `pass` gives the effects of one pass.
   */
  function Passes<C>(inputs: seq<C>, pass: C -> seq<Event>): seq<Event> {
    if inputs == [] then [] else Passes(inputs[..|inputs| - 1], pass) + pass(inputs[|inputs| - 1])
  }

  /** One more pass appends its effects. */
  lemma PassesSnoc<C>(inputs: seq<C>, pass: C -> seq<Event>, i: nat)
    requires i < |inputs|
    ensures Passes(inputs[..i + 1], pass) == Passes(inputs[..i], pass) + pass(inputs[i])
  {
    assert inputs[..i + 1][..i] == inputs[..i];
  }

  /** Two stretches of passes, one after the other, concatenate their effects. */
  lemma {:induction false} PassesAppend<C>(a: seq<C>, b: seq<C>, pass: C -> seq<Event>)
    ensures Passes(a + b, pass) == Passes(a, pass) + Passes(b, pass)
    decreases |b|
  {
    if b == [] {
      assert a + b == a;
    } else {
      var init := b[..|b| - 1];
      var last := b[|b| - 1];
      assert (a + b)[..|a + b| - 1] == a + init;
      assert (a + b)[|a + b| - 1] == last;
      PassesAppend(a, init, pass);
      calc {
        Passes(a + b, pass);
        Passes(a + init, pass) + pass(last);
        Passes(a, pass) + Passes(init, pass) + pass(last);
        Passes(a, pass) + (Passes(init, pass) + pass(last));
      }
    }
  }
}
