// The message pump Run: each GetMessageW result either stops the pump with
// an error, is ignored, or is dispatched to the hotkey registered under the
// message's id. The system call is replaced by a finite script of results.
module Pump {
  import opened Hotkeys
  import opened Registration

  /** What one GetMessageW call yields: r1, the error that came with it, and MSG.WPARAM */
  datatype MsgResult = MsgResult(r1: Uintptr, lastErr: Option<SysError>, wparam: Id)

  /** What Run does with one message */
  datatype Action = Stop(err: SysError) | Skip | Dispatch(hotkey: Hotkey)

  /** How Run ends: it returned an error, or the script of results ran out while it still waited */
  datatype RunResult = Returned(err: SysError) | ScriptEnded

  /** A result that makes Run return: an error came with it and r1 is not 1 */
  predicate IsFatal(m: MsgResult) {
    m.lastErr.Some? && m.r1 != 1
  }

  /** One iteration of Run's loop against the registry `keys` */
  function Decide(keys: map<Id, Hotkey>, m: MsgResult): (a: Action)
    ensures a.Stop? <==> IsFatal(m)
    ensures a.Stop? ==> a.err == m.lastErr.value
    ensures a.Dispatch? <==> !IsFatal(m) && m.wparam != 0 && m.wparam in keys
    ensures a.Dispatch? ==> a.hotkey == keys[m.wparam]
  {
    if m.lastErr.Some? && m.r1 != 1 then Stop(m.lastErr.value)
    else if m.wparam != 0 && m.wparam in keys then Dispatch(keys[m.wparam])
    else Skip
  }

  /** Without an error Run never stops, even when r1 is 0 */
  lemma NoErrorNeverStops(keys: map<Id, Hotkey>, m: MsgResult)
    requires m.lastErr.None?
    ensures !Decide(keys, m).Stop?
  {
  }

  /** An error that comes with r1 == 1 is tolerated */
  lemma ToleratedError(keys: map<Id, Hotkey>, m: MsgResult)
    requires m.r1 == 1
    ensures !Decide(keys, m).Stop?
  {
  }

  /** A message with id 0, or with an id nobody registered, is ignored */
  lemma IgnoredMessage(keys: map<Id, Hotkey>, m: MsgResult)
    requires !IsFatal(m)
    requires m.wparam == 0 || m.wparam !in keys
    ensures Decide(keys, m) == Skip
  {
  }

  /**
   * A successful registration is visible to the very next lookup: a message
   * with the new id is dispatched to the new hotkey, unless the id is 0.
   */
  lemma RegisteredIsVisible(keys: map<Id, Hotkey>, h: Hotkey, reply: CallResult, m: MsgResult)
    requires Register(keys, h, reply).status.Success?
    requires !IsFatal(m) && m.wparam == h.id
    ensures Decide(Register(keys, h, reply).keys, m) == (if h.id == 0 then Skip else Dispatch(h))
  {
  }

  /** The index of the first fatal result of the script, or its length */
  function FirstFatal(s: seq<MsgResult>): (n: nat)
    ensures n <= |s|
    ensures forall i :: 0 <= i < n ==> !IsFatal(s[i])
    ensures n < |s| ==> IsFatal(s[n])
  {
    if s == [] || IsFatal(s[0]) then 0 else 1 + FirstFatal(s[1..])
  }

  /** The hotkeys an action dispatches */
  function Dispatches(a: Action): seq<Hotkey> {
    if a.Dispatch? then [a.hotkey] else []
  }

  /** The hotkeys the messages of `s` are dispatched to, in order */
  function Dispatched(keys: map<Id, Hotkey>, s: seq<MsgResult>): seq<Hotkey> {
    if s == [] then [] else Dispatched(keys, s[..|s| - 1]) + Dispatches(Decide(keys, s[|s| - 1]))
  }

  /** The hotkeys among `hs` whose callback function is set: the callback invocations */
  function Invoked(hs: seq<Hotkey>): seq<Hotkey> {
    if hs == [] then []
    else Invoked(hs[..|hs| - 1]) + (if hs[|hs| - 1].callbackFunc.Some? then [hs[|hs| - 1]] else [])
  }

  /** The hotkeys among `hs` that notify the channel `c` */
  function SentTo(hs: seq<Hotkey>, c: Channel): seq<Hotkey> {
    if hs == [] then []
    else SentTo(hs[..|hs| - 1], c) + (if hs[|hs| - 1].callbackChan == Some(c) then [hs[|hs| - 1]] else [])
  }

  lemma DispatchedSnoc(keys: map<Id, Hotkey>, s: seq<MsgResult>, m: MsgResult)
    ensures Dispatched(keys, s + [m]) == Dispatched(keys, s) + Dispatches(Decide(keys, m))
  {
    assert (s + [m])[..|s|] == s;
  }

  lemma InvokedSnoc(hs: seq<Hotkey>, h: Hotkey)
    ensures Invoked(hs + [h]) == Invoked(hs) + (if h.callbackFunc.Some? then [h] else [])
  {
    assert (hs + [h])[..|hs|] == hs;
  }

  lemma SentToSnoc(hs: seq<Hotkey>, h: Hotkey, c: Channel)
    ensures SentTo(hs + [h], c) == SentTo(hs, c) + (if h.callbackChan == Some(c) then [h] else [])
  {
    assert (hs + [h])[..|hs|] == hs;
  }

  lemma OfferAllSnoc(buf: seq<Hotkey>, capacity: nat, xs: seq<Hotkey>, x: Hotkey)
    ensures OfferAll(buf, capacity, xs + [x]) == Offer(OfferAll(buf, capacity, xs), capacity, x)
  {
    assert (xs + [x])[..|xs|] == xs;
  }

  /** The channels registered hotkeys notify */
  function Channels(keys: map<Id, Hotkey>): set<Channel> {
    set id | id in keys && keys[id].callbackChan.Some? :: keys[id].callbackChan.value
  }

  /**
   * Every dispatched hotkey is the registered entry for a non-zero id, and
   * there are never more dispatches than messages.
   */
  lemma {:induction false} DispatchedAreRegistered(keys: map<Id, Hotkey>, s: seq<MsgResult>)
    requires WellKeyed(keys)
    ensures |Dispatched(keys, s)| <= |s|
    ensures forall h :: h in Dispatched(keys, s) ==> h.id != 0 && h.id in keys && keys[h.id] == h
  {
    if s != [] {
      DispatchedAreRegistered(keys, s[..|s| - 1]);
    }
  }

  /**
   * When no result is fatal and every message names a registered non-zero
   * id, every message is dispatched, in order, to the hotkey of its id.
   */
  lemma {:induction false} EveryHitDispatched(keys: map<Id, Hotkey>, s: seq<MsgResult>)
    requires forall i :: 0 <= i < |s| ==> !IsFatal(s[i]) && s[i].wparam != 0 && s[i].wparam in keys
    ensures |Dispatched(keys, s)| == |s|
    ensures forall i :: 0 <= i < |s| ==> Dispatched(keys, s)[i] == keys[s[i].wparam]
  {
    if s != [] {
      var init := s[..|s| - 1];
      EveryHitDispatched(keys, init);
      assert Dispatched(keys, s) == Dispatched(keys, init) + [keys[s[|s| - 1].wparam]];
    }
  }

  /** When every hotkey of `hs` has a callback, each of them is invoked */
  lemma {:induction false} InvokedAll(hs: seq<Hotkey>)
    requires forall i :: 0 <= i < |hs| ==> hs[i].callbackFunc.Some?
    ensures Invoked(hs) == hs
  {
    if hs != [] {
      InvokedAll(hs[..|hs| - 1]);
      assert hs[..|hs| - 1] + [hs[|hs| - 1]] == hs;
    }
  }

  /** When every hotkey of `hs` notifies `c`, each of them is sent to `c` */
  lemma {:induction false} SentToAll(hs: seq<Hotkey>, c: Channel)
    requires forall i :: 0 <= i < |hs| ==> hs[i].callbackChan == Some(c)
    ensures SentTo(hs, c) == hs
  {
    if hs != [] {
      SentToAll(hs[..|hs| - 1], c);
      assert hs[..|hs| - 1] + [hs[|hs| - 1]] == hs;
    }
  }

  /**
   * When every message of `s` is dispatched to a hotkey notifying `c`, the
   * channel, holding `buf` and drained by nobody, receives one notification
   * per message until its buffer is full: the number delivered is the number
   * of messages capped by the room left.
   */
  lemma DeliveriesCapped(keys: map<Id, Hotkey>, s: seq<MsgResult>, c: Channel, buf: seq<Hotkey>)
    requires forall i :: 0 <= i < |s| ==>
      !IsFatal(s[i]) && s[i].wparam != 0 && s[i].wparam in keys && keys[s[i].wparam].callbackChan == Some(c)
    requires |buf| <= c.capacity
    ensures |Dispatched(keys, s)| == |s|
    ensures var after := OfferAll(buf, c.capacity, SentTo(Dispatched(keys, s), c));
      && |after| == |buf| + Min(|s|, c.capacity - |buf|)
      && after == buf + Dispatched(keys, s)[..Min(|s|, c.capacity - |buf|)]
  {
    EveryHitDispatched(keys, s);
    SentToAll(Dispatched(keys, s), c);
    OfferAllKeepsWhatFits(buf, c.capacity, Dispatched(keys, s));
  }

  /**
   * Every channel of `chans` holds what it held at the start (`start`)
   * after the hotkeys `hs` were offered to it in turn.
   */
  ghost predicate Buffered(chans: set<Channel>, start: map<Channel, seq<Hotkey>>, hs: seq<Hotkey>)
    reads chans
  {
    forall c :: c in chans ==>
      && c in start && c.Valid()
      && c.buffer == OfferAll(start[c], c.capacity, SentTo(hs, c))
  }

  /** The buffers of the channels `chans`, as they are now */
  ghost function Snapshot(chans: set<Channel>): (start: map<Channel, seq<Hotkey>>)
    reads chans
    ensures forall c :: c in chans ==> c in start && start[c] == c.buffer
  {
    map c | c in chans :: c.buffer
  }

  /**
   * Offering `h` to channel `c` when `c` is its channel, and leaving the
   * buffer alone otherwise, extends what `c` has been offered by `h`'s share.
   */
  lemma OfferStep(start: seq<Hotkey>, capacity: nat, sent: seq<Hotkey>, h: Hotkey, c: Channel,
                  before: seq<Hotkey>, after: seq<Hotkey>)
    requires before == OfferAll(start, capacity, SentTo(sent, c))
    requires after == if h.callbackChan == Some(c) then Offer(before, capacity, h) else before
    ensures after == OfferAll(start, capacity, SentTo(sent + [h], c))
  {
    SentToSnoc(sent, h, c);
    OfferAllSnoc(start, capacity, SentTo(sent, c), h);
    if h.callbackChan != Some(c) {
      assert SentTo(sent + [h], c) == SentTo(sent, c);
    }
  }

  /**
   * What one dispatch does: the callback, if set, is started (recorded in
   * `invoked`), and `h` is offered to its own channel, if it has one, with a
   * non-blocking send; every other channel is left as it was.
   */
  method Notify(h: Hotkey, ghost chans: set<Channel>, ghost start: map<Channel, seq<Hotkey>>, ghost sent: seq<Hotkey>)
    returns (invoked: seq<Hotkey>)
    requires h.callbackChan.Some? ==> h.callbackChan.value in chans
    requires Buffered(chans, start, sent)
    modifies chans
    ensures invoked == (if h.callbackFunc.Some? then [h] else [])
    ensures Buffered(chans, start, sent + [h])
  {
    invoked := if h.callbackFunc.Some? then [h] else [];
    if h.callbackChan.Some? {
      var _ := h.callbackChan.value.TrySend(h);
    }
    forall c | c in chans
      ensures c.buffer == OfferAll(start[c], c.capacity, SentTo(sent + [h], c))
    {
      OfferStep(start[c], c.capacity, sent, h, c, old(c.buffer), c.buffer);
    }
  }

  /** The channel of a registered hotkey is one of the registry's channels */
  lemma ChannelRegistered(keys: map<Id, Hotkey>, id: Id)
    requires id in keys && keys[id].callbackChan.Some?
    ensures keys[id].callbackChan.value in Channels(keys)
  {
  }

  /**
   * One more message that does not stop the pump extends the dispatches and
   * the callback invocations by what that message causes.
   */
  lemma RunStep(keys: map<Id, Hotkey>, script: seq<MsgResult>, i: nat)
    requires i < |script| && !IsFatal(script[i])
    ensures var before, after := Dispatched(keys, script[..i]), Dispatched(keys, script[..i + 1]);
      match Decide(keys, script[i])
      case Dispatch(h) =>
        after == before + [h]
        && Invoked(after) == Invoked(before) + (if h.callbackFunc.Some? then [h] else [])
      case _ => after == before
  {
    var before := Dispatched(keys, script[..i]);
    assert script[..i + 1] == script[..i] + [script[i]];
    DispatchedSnoc(keys, script[..i], script[i]);
    match Decide(keys, script[i])
    case Dispatch(h) =>
      InvokedSnoc(before, h);
    case Skip =>
      assert before + [] == before;
    case Stop(_) =>
      assert false;
  }

  /**
   * Run over a finite script of GetMessageW results, with `reg` as the
   * registry. It returns at the first fatal result; the messages before it
   * are dispatched. `calls` records, in order, the hotkeys whose callback
   * function was started; each channel receives the hotkeys that notify it,
   * as far as its buffer has room.
   */
  method Run(reg: Registry, script: seq<MsgResult>) returns (result: RunResult, calls: seq<Hotkey>)
    requires forall c :: c in Channels(reg.keys) ==> c.Valid()
    modifies Channels(reg.keys)
    ensures unchanged(reg)
    ensures var n := FirstFatal(script);
      && (n < |script| ==> result == Returned(script[n].lastErr.value))
      && (n == |script| ==> result == ScriptEnded)
      && calls == Invoked(Dispatched(reg.keys, script[..n]))
    ensures forall c :: c in Channels(reg.keys) ==>
      && c.Valid()
      && c.buffer == OfferAll(old(c.buffer), c.capacity, SentTo(Dispatched(reg.keys, script[..FirstFatal(script)]), c))
  {
    var keys := reg.keys;
    ghost var chans := Channels(keys);
    ghost var start := Snapshot(chans);
    calls := [];
    result := ScriptEnded;
    var i := 0;
    while i < |script|
      invariant i <= |script|
      invariant forall j :: 0 <= j < i ==> !IsFatal(script[j])
      invariant calls == Invoked(Dispatched(keys, script[..i]))
      invariant Buffered(chans, start, Dispatched(keys, script[..i]))
    {
      var m := script[i];
      var action := Decide(keys, m);
      if action.Stop? {
        result := Returned(action.err);
        break;
      }
      RunStep(keys, script, i);
      if action.Dispatch? {
        var h := action.hotkey;
        if h.callbackChan.Some? {
          ChannelRegistered(keys, m.wparam);
        }
        var invoked := Notify(h, chans, start, Dispatched(keys, script[..i]));
        calls := calls + invoked;
      }
      i := i + 1;
    }
    assert i == FirstFatal(script);
  }

  /**
   * The run of the package's test: a registry holding id 1, whose hotkey has
   * a callback and a channel of capacity 10, and a system that answers
   * r1 == 0 with no error three times, each for id 1, then with an error.
   * The callback fires three times, three notifications are buffered, and
   * Run returns the error.
   */
  lemma RunExample(c: Channel, cb: Callback, e: SysError)
    requires c.capacity == 10
    ensures var h := Hotkey(1, ModAlt + ModCtrl + ModNoRepeat, 'A' as Int64, Some(c), Some(cb));
      var keys := map[1 := h];
      var m := MsgResult(0, None, 1);
      var s := [m, m, m, MsgResult(0, Some(e), 1)];
      && FirstFatal(s) == 3
      && Decide(keys, s[3]) == Stop(e)
      && Invoked(Dispatched(keys, s[..3])) == [h, h, h]
      && OfferAll([], c.capacity, SentTo(Dispatched(keys, s[..3]), c)) == [h, h, h]
  {
    var h := Hotkey(1, ModAlt + ModCtrl + ModNoRepeat, 'A' as Int64, Some(c), Some(cb));
    var keys := map[1 := h];
    var m := MsgResult(0, None, 1);
    var f := MsgResult(0, Some(e), 1);
    var s := [m, m, m, f];
    assert s[1..] == [m, m, f] && [m, m, f][1..] == [m, f] && [m, f][1..] == [f];
    assert FirstFatal([m, f]) == 1;
    var hits := s[..3];
    assert hits == [m, m, m];
    EveryHitDispatched(keys, hits);
    var sent := Dispatched(keys, hits);
    assert sent == [h, h, h];
    InvokedAll(sent);
    DeliveriesCapped(keys, hits, c, []);
  }

  /** The same run as a program: a fresh channel of capacity 10 ends up holding three notifications */
  method RunTest(cb: Callback, e: SysError) returns (result: RunResult, calls: nat, delivered: seq<Hotkey>)
    ensures result == Returned(e)
    ensures calls == 3 && |delivered| == 3
  {
    var c := new Channel(10);
    var reg := new Registry();
    var h := Hotkey(1, ModAlt + ModCtrl + ModNoRepeat, 'A' as Int64, Some(c), Some(cb));
    reg.keys := map[1 := h];
    assert reg.keys[1].callbackChan.value == c;
    assert Channels(reg.keys) == {c};
    var m := MsgResult(0, None, 1);
    var script := [m, m, m, MsgResult(0, Some(e), 1)];
    var invoked;
    RunExample(c, cb, e);
    result, invoked := Run(reg, script);
    calls, delivered := |invoked|, c.buffer;
  }
}
