// The process-wide registry of hotkeys and RegisterHotkey, with the
// RegisterHotKey system call replaced by the answer it gives.
module Registration {
  import opened Hotkeys
  import Labels

  /** Why a registration failed */
  datatype RegisterError =
    | DuplicateId(id: Id, existing: Hotkey)                    // the id is taken; `existing` holds it
    | Refused(hotkeyLabel: string, reported: Option<SysError>) // the system answered r1 == 0
    | OsFailure(err: SysError)                                 // an error came with an r1 other than 0 and 1

  datatype Status = Success | Failure(error: RegisterError)

  /** The arguments of one RegisterHotKey call: window handle, id, modifiers and key code */
  datatype OsRequest = RegisterHotKey(hwnd: Uintptr, id: Uintptr, modifiers: Uintptr, keyCode: Uintptr)

  /** Go's uintptr(x) for a signed value on a 64-bit target: two's complement */
  function AsUintptr(x: Int64): Uintptr {
    if x < 0 then x + 0x1_0000_0000_0000_0000 else x
  }

  /** The call RegisterHotkey makes for `h`: no window, then the id, the mask and the key code */
  function Request(h: Hotkey): (r: OsRequest)
    ensures r.hwnd == 0
    ensures r.id == h.id || r.id == h.id + 0x1_0000_0000_0000_0000
    ensures r.keyCode == h.keyCode || r.keyCode == h.keyCode + 0x1_0000_0000_0000_0000
  {
    RegisterHotKey(0, AsUintptr(h.id), h.modifiers as int, AsUintptr(h.keyCode))
  }

  /**
   * The request carries the hotkey's id, mask and key code exactly: two
   * hotkeys make the same call only when they agree on all three.
   */
  lemma RequestIsFaithful(h1: Hotkey, h2: Hotkey)
    ensures Request(h1) == Request(h2)
        <==> h1.id == h2.id && h1.modifiers == h2.modifiers && h1.keyCode == h2.keyCode
  {
    if Request(h1) == Request(h2) {
      assert (h1.modifiers as int) as bv64 == h1.modifiers;
      assert (h2.modifiers as int) as bv64 == h2.modifiers;
    }
  }

  /**
   * When the system's answer counts as success: r1 is 1, whatever error came
   * with it, or r1 is some other non-zero value and no error came with it.
   */
  predicate Accepted(reply: CallResult) {
    reply.r1 == 1 || (reply.r1 != 0 && reply.lastErr.None?)
  }

  /** Every entry is filed under its own id */
  ghost predicate WellKeyed(keys: map<Id, Hotkey>) {
    forall id :: id in keys ==> keys[id].id == id
  }

  /** The outcome of one registration: the new registry, the status, and whether the system was asked */
  datatype Attempt = Attempt(keys: map<Id, Hotkey>, status: Status, osCalled: bool)

  /** RegisterHotkey on a registry `keys`, where `reply` is what the system call answers if it is made */
  function Register(keys: map<Id, Hotkey>, h: Hotkey, reply: CallResult): (a: Attempt)
    ensures a.osCalled <==> h.id !in keys
    ensures a.status.Success? <==> h.id !in keys && Accepted(reply)
    ensures a.status.Success? ==> a.keys == keys[h.id := h]
    ensures a.status.Failure? ==> a.keys == keys
    ensures h.id in keys ==> a.status == Failure(DuplicateId(h.id, keys[h.id]))
  {
    if h.id in keys then
      Attempt(keys, Failure(DuplicateId(h.id, keys[h.id])), false)
    else if reply.r1 == 0 then
      Attempt(keys, Failure(Refused(Labels.Label(h), reply.lastErr)), true)
    else if reply.lastErr.Some? && reply.r1 != 1 then
      Attempt(keys, Failure(OsFailure(reply.lastErr.value)), true)
    else
      Attempt(keys[h.id := h], Success, true)
  }

  /** The four cases of the tolerance rule, once the id is free */
  lemma OsResultRule(keys: map<Id, Hotkey>, h: Hotkey, reply: CallResult)
    requires h.id !in keys
    ensures reply.r1 == 0 ==> Register(keys, h, reply).status == Failure(Refused(Labels.Label(h), reply.lastErr))
    ensures reply.r1 == 1 ==> Register(keys, h, reply).status == Success
    ensures reply.r1 != 0 && reply.lastErr.None? ==> Register(keys, h, reply).status == Success
    ensures reply.r1 != 0 && reply.r1 != 1 && reply.lastErr.Some?
        ==> Register(keys, h, reply).status == Failure(OsFailure(reply.lastErr.value))
  {
  }

  /** Registration files the new entry under its own id, so the registry stays well keyed */
  lemma RegisterKeepsWellKeyed(keys: map<Id, Hotkey>, h: Hotkey, reply: CallResult)
    requires WellKeyed(keys)
    ensures WellKeyed(Register(keys, h, reply).keys)
  {
  }

  /** Registrations one after another, each with the answer the system gives it */
  function RegisterAll(keys: map<Id, Hotkey>, calls: seq<(Hotkey, CallResult)>): map<Id, Hotkey>
    decreases |calls|
  {
    if calls == [] then keys
    else RegisterAll(Register(keys, calls[0].0, calls[0].1).keys, calls[1..])
  }

  /** Entries are never removed or replaced: the registry only grows */
  lemma {:induction false} RegistryOnlyGrows(keys: map<Id, Hotkey>, calls: seq<(Hotkey, CallResult)>)
    ensures keys.Keys <= RegisterAll(keys, calls).Keys
    ensures forall id :: id in keys ==> RegisterAll(keys, calls)[id] == keys[id]
    decreases |calls|
  {
    if calls != [] {
      RegistryOnlyGrows(Register(keys, calls[0].0, calls[0].1).keys, calls[1..]);
    }
  }

  /** A sequence of registrations keeps the registry well keyed */
  lemma {:induction false} RegisterAllKeepsWellKeyed(keys: map<Id, Hotkey>, calls: seq<(Hotkey, CallResult)>)
    requires WellKeyed(keys)
    ensures WellKeyed(RegisterAll(keys, calls))
    decreases |calls|
  {
    if calls != [] {
      RegisterKeepsWellKeyed(keys, calls[0].0, calls[0].1);
      RegisterAllKeepsWellKeyed(Register(keys, calls[0].0, calls[0].1).keys, calls[1..]);
    }
  }

  /**
   * Once an id is registered, any later registration with the same id fails
   * as a duplicate naming the first hotkey, whatever its modifiers and key,
   * and whatever happened in between.
   */
  lemma DuplicateStaysRejected(keys: map<Id, Hotkey>, h: Hotkey, reply: CallResult,
                               between: seq<(Hotkey, CallResult)>, h2: Hotkey, reply2: CallResult)
    requires Register(keys, h, reply).status.Success?
    requires h2.id == h.id
    ensures var later := RegisterAll(Register(keys, h, reply).keys, between);
      Register(later, h2, reply2) == Attempt(later, Failure(DuplicateId(h.id, h)), false)
  {
    RegistryOnlyGrows(Register(keys, h, reply).keys, between);
  }

  /**
   * The registration sequence of the package's tests: ids 1 and 3 are
   * accepted, the second id 3 is a duplicate, and id 4 is refused by the
   * system because its key combination is taken.
   */
  lemma RegistrationExample(e: SysError)
    ensures var ok, refused := CallResult(1, Some(e)), CallResult(0, Some(e));
      var h1 := Hotkey(1, ModCtrl + ModAlt + ModNoRepeat, 'A' as Int64, None, None);
      var h3 := Hotkey(3, ModCtrl + ModWin, 'A' as Int64, None, None);
      var h4 := Hotkey(4, ModCtrl + ModWin, 'A' as Int64, None, None);
      var a1 := Register(map[], h1, ok);
      var a2 := Register(a1.keys, h3, ok);
      var a3 := Register(a2.keys, h3, ok);
      var a4 := Register(a3.keys, h4, refused);
      && a1.status.Success? && a2.status.Success?
      && a3.status == Failure(DuplicateId(3, h3)) && !a3.osCalled
      && a4.status.Failure? && a4.status.error.Refused?
      && a4.keys == map[1 := h1, 3 := h3]
  {
  }

  /** The package-level `keys` map */
  class Registry {
    var keys: map<Id, Hotkey>

    ghost predicate Valid()
      reads this
    {
      WellKeyed(keys)
    }

    /** The registry as the package's init leaves it: empty */
    constructor ()
      ensures Valid() && keys == map[]
    {
      keys := map[];
    }

    /**
     * Registers `h`. The registry is scanned for an entry with the same id
     * first; only when there is none is the system asked, with `reply`
     * standing for its answer. `requests` lists the calls made to the system.
     */
    method RegisterHotkey(h: Hotkey, reply: CallResult) returns (status: Status, requests: seq<OsRequest>)
      requires Valid()
      modifies this
      ensures Valid()
      ensures var a := Register(old(keys), h, reply);
        && keys == a.keys && status == a.status
        && requests == (if a.osCalled then [Request(h)] else [])
    {
      var unseen := keys.Values;
      while unseen != {}
        invariant unseen <= keys.Values
        invariant forall hk :: hk in keys.Values - unseen ==> hk.id != h.id
        decreases |unseen|
      {
        var hk :| hk in unseen;
        if hk.id == h.id {
          ghost var id :| id in keys && keys[id] == hk;
          assert id == h.id;
          status, requests := Failure(DuplicateId(h.id, hk)), [];
          return;
        }
        unseen := unseen - {hk};
      }
      requests := [Request(h)];
      if reply.r1 == 0 {
        status := Failure(Refused(Labels.Label(h), reply.lastErr));
        return;
      }
      if reply.lastErr.Some? && reply.r1 != 1 {
        status := Failure(OsFailure(reply.lastErr.value));
        return;
      }
      keys := keys[h.id := h];
      status := Success;
    }
  }

  /** The registration test run against a fresh registry, with the answers the system gives */
  method RegistrationTest(e: SysError) returns (statuses: seq<Status>, registered: set<Id>)
    ensures |statuses| == 4
    ensures statuses[0] == Success && statuses[1] == Success
    ensures statuses[2].Failure? && statuses[2].error.DuplicateId?
    ensures statuses[3].Failure? && statuses[3].error.Refused?
    ensures registered == {1, 3}
  {
    var ok, refused := CallResult(1, Some(e)), CallResult(0, Some(e));
    var reg := new Registry();
    var s1, _ := reg.RegisterHotkey(Hotkey(1, ModCtrl + ModAlt + ModNoRepeat, 'A' as Int64, None, None), ok);
    var s2, _ := reg.RegisterHotkey(Hotkey(3, ModCtrl + ModWin, 'A' as Int64, None, None), ok);
    var s3, _ := reg.RegisterHotkey(Hotkey(3, ModCtrl + ModWin, 'A' as Int64, None, None), ok);
    var s4, _ := reg.RegisterHotkey(Hotkey(4, ModCtrl + ModWin, 'A' as Int64, None, None), refused);
    statuses := [s1, s2, s3, s4];
    registered := reg.keys.Keys;
  }
}
