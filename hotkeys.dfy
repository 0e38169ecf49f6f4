// Data model of the winhotkey package: the modifier bits, the Hotkey
// record, the results of the two user32 calls, and the buffered channel a
// hotkey may deliver its notifications to.
module Hotkeys {

  datatype Option<+T> = None | Some(value: T)

  /** Go's int16: the type of Hotkey.ID, of the registry's keys and of MSG.WPARAM */
  type Id = x: int | -0x8000 <= x < 0x8000

  /** Go's int on a 64-bit target: the type of Hotkey.KeyCode */
  type Int64 = x: int | -0x8000_0000_0000_0000 <= x < 0x8000_0000_0000_0000

  /** Go's uintptr on a 64-bit target: the r1 result of a system call */
  type Uintptr = x: int | 0 <= x < 0x1_0000_0000_0000_0000

  // The modifier bits. Hotkey.Modifiers is a Go int, 64 bits wide, which the
  // source masks with `&` and passes to the system as a uintptr; its 64-bit
  // pattern, a bv64, renders both.
  const ModAlt: bv64 := 0x0001 << 0
  const ModCtrl: bv64 := 0x0001 << 1
  const ModShift: bv64 := 0x0001 << 2
  const ModWin: bv64 := 0x0001 << 3
  const ModNoRepeat: bv64 := 0x4000

  /** The five modifiers a label can mention */
  datatype Modifier = NoRepeat | Ctrl | Alt | Shift | Win

  function Flag(f: Modifier): bv64 {
    match f
    case NoRepeat => ModNoRepeat
    case Ctrl => ModCtrl
    case Alt => ModAlt
    case Shift => ModShift
    case Win => ModWin
  }

  /** Whether `mask` has the bit of `f` set: `mask & Flag(f) != 0`, one case per modifier */
  predicate Has(mask: bv64, f: Modifier) {
    match f
    case NoRepeat => mask & ModNoRepeat != 0
    case Ctrl => mask & ModCtrl != 0
    case Alt => mask & ModAlt != 0
    case Shift => mask & ModShift != 0
    case Win => mask & ModWin != 0
  }

  /** `Has` is the bit test `mask & Flag(f) != 0`, for each modifier */
  lemma HasIsFlagTest(mask: bv64)
    ensures Has(mask, NoRepeat) <==> mask & Flag(NoRepeat) != 0
    ensures Has(mask, Ctrl) <==> mask & Flag(Ctrl) != 0
    ensures Has(mask, Alt) <==> mask & Flag(Alt) != 0
    ensures Has(mask, Shift) <==> mask & Flag(Shift) != 0
    ensures Has(mask, Win) <==> mask & Flag(Win) != 0
  {
  }

  /** The order in which a label lists the modifiers */
  const Order: seq<Modifier> := [NoRepeat, Ctrl, Alt, Shift, Win]

  /** Position of a modifier in `Order` */
  function Rank(f: Modifier): (k: nat)
    ensures k < |Order| && Order[k] == f
  {
    match f
    case NoRepeat => 0
    case Ctrl => 1
    case Alt => 2
    case Shift => 3
    case Win => 4
  }

  // ----- Masks built the way the tests build them -----

  /** Each modifier is a single bit, and no two modifiers share it */
  lemma FlagsAreSingleBits(f: Modifier, g: Modifier)
    ensures Flag(f) != 0 && Flag(f) & (Flag(f) - 1) == 0
    ensures f != g ==> Flag(f) & Flag(g) == 0
    ensures Has(Flag(f), g) <==> f == g
  {
  }

  /** `flag` when `chosen`, else nothing */
  function Pick(chosen: bool, flag: bv64): bv64 {
    if chosen then flag else 0
  }

  /**
   * Any choice of modifiers added up, as the tests build masks, gives the
   * same mask as OR-ing them, and that mask has exactly the chosen bits.
   */
  lemma SumOfFlags(noRepeat: bool, ctrl: bool, alt: bool, shift: bool, win: bool)
    ensures var sum := Pick(alt, ModAlt) + Pick(ctrl, ModCtrl) + Pick(shift, ModShift)
                       + Pick(win, ModWin) + Pick(noRepeat, ModNoRepeat);
      && sum == Pick(alt, ModAlt) | Pick(ctrl, ModCtrl) | Pick(shift, ModShift)
                | Pick(win, ModWin) | Pick(noRepeat, ModNoRepeat)
      && (Has(sum, NoRepeat) <==> noRepeat) && (Has(sum, Ctrl) <==> ctrl)
      && (Has(sum, Alt) <==> alt) && (Has(sum, Shift) <==> shift) && (Has(sum, Win) <==> win)
  {
  }

  /** Identifies a callback function value; the model only records that it was invoked */
  datatype Callback = Callback(tag: nat)

  /**
   * A hotkey definition. A nil CallbackChan or CallbackFunc is `None`.
   * The record is immutable once built: the core never writes to its fields.
   */
  datatype Hotkey = Hotkey(
    id: Id,
    modifiers: bv64,
    keyCode: Int64,
    callbackChan: Option<Channel>,
    callbackFunc: Option<Callback>)

  /** An error value returned by a system call (its text only) */
  datatype SysError = SysError(text: string)

  /** What the RegisterHotKey call answered: r1 and whether an error came with it */
  datatype CallResult = CallResult(r1: Uintptr, lastErr: Option<SysError>)

  /** One attempt to put `x` into a buffer of the given capacity: it is dropped when the buffer is full */
  function Offer<T>(buf: seq<T>, capacity: nat, x: T): (r: seq<T>)
    ensures buf <= r
    ensures |r| == |buf| + 1 <==> |buf| < capacity
    ensures |r| == |buf| + 1 ==> r[|buf|] == x
    ensures |buf| <= capacity ==> |r| <= capacity
  {
    if |buf| < capacity then buf + [x] else buf
  }

  /** The buffer after offering every element of `xs` in turn */
  function OfferAll<T>(buf: seq<T>, capacity: nat, xs: seq<T>): seq<T>
    decreases |xs|
  {
    if xs == [] then buf else Offer(OfferAll(buf, capacity, xs[..|xs| - 1]), capacity, xs[|xs| - 1])
  }

  function Min(a: int, b: int): int { if a <= b then a else b }

  /**
   * Offering a sequence to a buffer that nobody drains keeps exactly the
   * elements that fit, in order; the rest are dropped.
   */
  lemma {:induction false} OfferAllKeepsWhatFits<T>(buf: seq<T>, capacity: nat, xs: seq<T>)
    requires |buf| <= capacity
    ensures OfferAll(buf, capacity, xs) == buf + xs[..Min(|xs|, capacity - |buf|)]
  {
    if xs != [] {
      var init := xs[..|xs| - 1];
      OfferAllKeepsWhatFits(buf, capacity, init);
      assert init[..Min(|init|, capacity - |buf|)] == xs[..Min(|init|, capacity - |buf|)];
    }
  }

  /**
   * A buffered Go channel of capacity `capacity`, seen from the sending side:
   * the notifications it holds, oldest first.
   */
  class Channel {
    var buffer: seq<Hotkey>
    const capacity: nat

    ghost predicate Valid()
      reads this
    {
      |buffer| <= capacity
    }

    /** make(chan *Hotkey, capacity) */
    constructor (capacity: nat)
      ensures Valid()
      ensures this.capacity == capacity && buffer == []
    {
      this.capacity := capacity;
      buffer := [];
    }

    /**
     * A send inside a select with an empty default case: it succeeds only
     * when the buffer has room, otherwise the value is dropped.
     */
    method TrySend(h: Hotkey) returns (sent: bool)
      requires Valid()
      modifies this
      ensures Valid()
      ensures sent <==> |old(buffer)| < capacity
      ensures buffer == Offer(old(buffer), capacity, h)
    {
      sent := |buffer| < capacity;
      if sent {
        buffer := buffer + [h];
      }
    }
  }
}
