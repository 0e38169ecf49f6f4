// The human-readable label of a hotkey, `(*Hotkey).String`, and a parser
// that inverts it: the label determines the id, the set of modifiers it
// mentions and the key character, and lists the modifiers in a fixed order.
module Labels {
  import opened Hotkeys
  import opened Decimals
  import opened Seqs

  /**
   * Go's `%c` rendering of a key code: the character with that code point,
   * or U+FFFD when the code is not a Unicode scalar value (negative codes
   * are read as huge unsigned values, hence invalid too).
   */
  function KeyChar(code: Int64): (c: char)
    ensures c as int == code <==> 0 <= code < 0xD800 || 0xE000 <= code < 0x11_0000
    ensures c as int != code ==> c == '\U{FFFD}'
  {
    if 0 <= code < 0xD800 || 0xE000 <= code < 0x11_0000 then code as char else '�'
  }

  /** The prefix a modifier contributes to a label */
  function Name(f: Modifier): string {
    match f
    case NoRepeat => "NoRepeat "
    case Ctrl => "Ctrl+"
    case Alt => "Alt+"
    case Shift => "Shift+"
    case Win => "Win+"
  }

  /** "NoRepeat " ends in a space, every other prefix in a plus sign */
  lemma NameEndings(f: Modifier)
    ensures |Name(f)| >= 2
    ensures Name(f)[|Name(f)| - 1] == (if f == NoRepeat then ' ' else '+')
    ensures forall i :: 0 <= i < |Name(f)| - 1 ==> Name(f)[i] != ' ' && Name(f)[i] != '+'
  {
  }

  /** The modifier prefixes, one bit test after the other as `String` does them */
  function Prefixes(mask: bv64): string {
    (if mask & ModNoRepeat != 0 then "NoRepeat " else "")
    + (if mask & ModCtrl != 0 then "Ctrl+" else "")
    + (if mask & ModAlt != 0 then "Alt+" else "")
    + (if mask & ModShift != 0 then "Shift+" else "")
    + (if mask & ModWin != 0 then "Win+" else "")
  }

  /** `(*Hotkey).String` */
  function Label(h: Hotkey): string {
    "Hotkey[ID: " + Decimal(h.id) + ", " + Prefixes(h.modifiers) + [KeyChar(h.keyCode)] + "]"
  }

  // ----- The order of the prefixes -----

  /** Strictly increasing in `Order`: fixed order, no modifier twice */
  predicate Ascending(fs: seq<Modifier>) {
    forall i, j :: 0 <= i < j < |fs| ==> Rank(fs[i]) < Rank(fs[j])
  }

  /** `[f]` when the bit of `f` is set in `mask`, else nothing */
  function Piece(mask: bv64, f: Modifier): seq<Modifier> {
    if Has(mask, f) then [f] else []
  }

  /** The elements of `fs` whose bit is set in `mask`, in the order of `fs` */
  function Select(mask: bv64, fs: seq<Modifier>): seq<Modifier> {
    if fs == [] then [] else Piece(mask, fs[0]) + Select(mask, fs[1..])
  }

  /** The modifiers whose bits are set in `mask`, listed in `Order` */
  function Present(mask: bv64): seq<Modifier> {
    Select(mask, Order)
  }

  /** The prefixes of a list of modifiers, concatenated */
  function Join(fs: seq<Modifier>): string {
    if fs == [] then "" else Name(fs[0]) + Join(fs[1..])
  }

  lemma {:induction false} SelectIsSubset(mask: bv64, fs: seq<Modifier>)
    ensures forall f :: f in Select(mask, fs) <==> f in fs && Has(mask, f)
  {
    if fs != [] {
      SelectIsSubset(mask, fs[1..]);
      assert fs == [fs[0]] + fs[1..];
    }
  }

  lemma {:induction false} SelectIsAscending(mask: bv64, fs: seq<Modifier>)
    requires Ascending(fs)
    ensures Ascending(Select(mask, fs))
  {
    if fs != [] {
      var tail := fs[1..];
      SelectIsAscending(mask, tail);
      SelectIsSubset(mask, tail);
      var head, rest := Piece(mask, fs[0]), Select(mask, tail);
      forall f | f in rest ensures Rank(fs[0]) < Rank(f) {
        var j :| 0 <= j < |tail| && tail[j] == f;
        assert fs[j + 1] == f;
      }
      forall i, j | 0 <= i < j < |head + rest|
        ensures Rank((head + rest)[i]) < Rank((head + rest)[j])
      {
        assert (head + rest)[j] == rest[j - |head|];
        assert rest[j - |head|] in rest;
        if i >= |head| {
          assert (head + rest)[i] == rest[i - |head|];
        }
      }
    }
  }

  /**
   * A label names a modifier if and only if its bit is set, names it once,
   * and names the modifiers in the order NoRepeat, Ctrl, Alt, Shift, Win.
   */
  lemma PresentInOrder(mask: bv64)
    ensures Ascending(Present(mask))
    ensures forall f :: f in Present(mask) <==> Has(mask, f)
  {
    SelectIsAscending(mask, Order);
    SelectIsSubset(mask, Order);
    forall f ensures f in Order { assert Order[Rank(f)] == f; }
  }

  /** `Select` over `Order`, written out */
  lemma SelectOrder(mask: bv64)
    ensures Present(mask)
         == Piece(mask, NoRepeat) + (Piece(mask, Ctrl) + (Piece(mask, Alt)
            + (Piece(mask, Shift) + (Piece(mask, Win) + []))))
  {
    assert Select(mask, [Win]) == Piece(mask, Win) + [] by {
      assert [Win][1..] == [];
    }
    assert Select(mask, [Shift, Win]) == Piece(mask, Shift) + Select(mask, [Win]) by {
      assert [Shift, Win][1..] == [Win];
    }
    assert Select(mask, [Alt, Shift, Win]) == Piece(mask, Alt) + Select(mask, [Shift, Win]) by {
      assert [Alt, Shift, Win][1..] == [Shift, Win];
    }
    assert Select(mask, [Ctrl, Alt, Shift, Win]) == Piece(mask, Ctrl) + Select(mask, [Alt, Shift, Win]) by {
      assert [Ctrl, Alt, Shift, Win][1..] == [Alt, Shift, Win];
    }
    assert Order[1..] == [Ctrl, Alt, Shift, Win];
  }

  /** What one bit test of `String` writes */
  function Word(mask: bv64, f: Modifier): string {
    if Has(mask, f) then Name(f) else ""
  }

  lemma JoinPiece(mask: bv64, f: Modifier, rest: seq<Modifier>)
    ensures Join(Piece(mask, f) + rest) == Word(mask, f) + Join(rest)
  {
    if Has(mask, f) {
      assert ([f] + rest)[1..] == rest;
    } else {
      assert [] + rest == rest;
    }
  }

  /** The chain of bit tests in `String` writes exactly the names of `Present(mask)` */
  lemma PrefixesNamePresent(mask: bv64)
    ensures Prefixes(mask) == Join(Present(mask))
  {
    SelectOrder(mask);
    var r4 := Piece(mask, Win) + [];
    var r3 := Piece(mask, Shift) + r4;
    var r2 := Piece(mask, Alt) + r3;
    var r1 := Piece(mask, Ctrl) + r2;
    JoinPiece(mask, Win, []);
    JoinPiece(mask, Shift, r4);
    JoinPiece(mask, Alt, r3);
    JoinPiece(mask, Ctrl, r2);
    JoinPiece(mask, NoRepeat, r1);
    var w0, w1, w2, w3, w4 := Word(mask, NoRepeat), Word(mask, Ctrl), Word(mask, Alt), Word(mask, Shift), Word(mask, Win);
    assert Join(Present(mask)) == w0 + (w1 + (w2 + (w3 + (w4 + ""))));
    RightNested(w0, w1, w2, w3, w4);
    assert Prefixes(mask) == w0 + w1 + w2 + w3 + w4;
  }

  // ----- Reading a label back -----

  /**
   * Reads a concatenation of modifier prefixes, trying the modifiers
   * `Order[k..]` in order.
   */
  function ParseModifiers(s: string, k: nat): Option<seq<Modifier>>
    requires k <= |Order|
    decreases |Order| - k
  {
    if k == |Order| then
      (if s == [] then Some([]) else None)
    else
      var name := Name(Order[k]);
      if name <= s then
        match ParseModifiers(s[|name|..], k + 1)
        case None => None
        case Some(fs) => Some([Order[k]] + fs)
      else
        ParseModifiers(s, k + 1)
  }

  lemma {:induction false} ParseJoin(fs: seq<Modifier>, k: nat)
    requires k <= |Order|
    requires Ascending(fs)
    requires forall i :: 0 <= i < |fs| ==> k <= Rank(fs[i])
    ensures ParseModifiers(Join(fs), k) == Some(fs)
    decreases |Order| - k
  {
    if k < |Order| {
      var name := Name(Order[k]);
      if fs != [] && Rank(fs[0]) == k {
        assert Join(fs) == name + Join(fs[1..]);
        assert Join(fs)[|name|..] == Join(fs[1..]);
        ParseJoin(fs[1..], k + 1);
        assert [Order[k]] + fs[1..] == fs;
      } else {
        if fs != [] {
          assert Join(fs)[0] == Name(fs[0])[0];
        }
        assert !(name <= Join(fs));
        ParseJoin(fs, k + 1);
      }
    }
  }

  /** What a label says: the id, the modifiers it names, and the key */
  datatype LabelParts = LabelParts(id: int, modifiers: seq<Modifier>, key: char)

  const Head: string := "Hotkey[ID: "

  /** The index of the first `c` in `s`, or `|s|` */
  function IndexOf(s: string, c: char): (i: nat)
    ensures i <= |s|
    ensures i < |s| ==> s[i] == c
    ensures forall j :: 0 <= j < i ==> s[j] != c
  {
    if s == [] then 0 else if s[0] == c then 0 else 1 + IndexOf(s[1..], c)
  }

  /** Reads a label of the form `Hotkey[ID: <id>, <prefixes><key>]` */
  function ParseLabel(s: string): Option<LabelParts> {
    if |s| < |Head| + 2 || s[..|Head|] != Head || s[|s| - 1] != ']' then None
    else
      var inner := s[|Head|..|s| - 1];
      var body, key := inner[..|inner| - 1], inner[|inner| - 1];
      var i := IndexOf(body, ',');
      if i + 2 > |body| || body[i..i + 2] != ", " then None
      else
        match ParseDecimal(body[..i])
        case None => None
        case Some(id) =>
          match ParseModifiers(body[i + 2..], 0)
          case None => None
          case Some(fs) => Some(LabelParts(id, fs, key))
  }

  lemma ParsePrefixes(mask: bv64)
    ensures ParseModifiers(Prefixes(mask), 0) == Some(Present(mask))
  {
    PrefixesNamePresent(mask);
    PresentInOrder(mask);
    ParseJoin(Present(mask), 0);
  }

  /** `String` loses nothing but the exact key code and the bits it does not name */
  lemma LabelRoundTrip(h: Hotkey)
    ensures ParseLabel(Label(h)) == Some(LabelParts(h.id, Present(h.modifiers), KeyChar(h.keyCode)))
  {
    var dec, sep, pre, key := Decimal(h.id), ", ", Prefixes(h.modifiers), KeyChar(h.keyCode);
    var body := dec + sep + pre;
    var inner := body + [key];
    var s := Label(h);
    HeadAside(Head, dec, sep, pre, [key], "]");
    assert s == Head + inner + "]";
    Slices(Head, inner, "]");
    assert s[|Head|..|s| - 1] == inner;
    assert inner[..|inner| - 1] == body && inner[|inner| - 1] == key;
    Slices(dec, sep, pre);
    assert body[|dec|] == ',';
    var i := IndexOf(body, ',');
    assert i == |dec|;
    DecimalRoundTrip(h.id);
    ParsePrefixes(h.modifiers);
  }

  /**
   * Two hotkeys have the same label exactly when they have the same id,
   * name the same modifiers and show the same key character.
   */
  lemma SameLabel(h1: Hotkey, h2: Hotkey)
    ensures Label(h1) == Label(h2)
        <==> h1.id == h2.id && Present(h1.modifiers) == Present(h2.modifiers)
             && KeyChar(h1.keyCode) == KeyChar(h2.keyCode)
  {
    LabelRoundTrip(h1);
    LabelRoundTrip(h2);
    PrefixesNamePresent(h1.modifiers);
    PrefixesNamePresent(h2.modifiers);
  }

  /** The labels the tests expect, for the masks the tests build */
  lemma LabelExampleCtrlAlt()
    ensures Label(Hotkey(1, ModCtrl + ModAlt, 'A' as Int64, None, None)) == "Hotkey[ID: 1, Ctrl+Alt+A]"
  {
  }

  lemma LabelExampleCtrlShift()
    ensures Label(Hotkey(2, ModCtrl + ModShift, 'A' as Int64, None, None)) == "Hotkey[ID: 2, Ctrl+Shift+A]"
  {
  }

  lemma LabelExampleNoRepeat()
    ensures Label(Hotkey(1, ModAlt + ModCtrl + ModNoRepeat, 'A' as Int64, None, None)) == "Hotkey[ID: 1, NoRepeat Ctrl+Alt+A]"
  {
  }
}
