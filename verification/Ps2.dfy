/** The PS/2 keyboard handler (kern/sys/ps2/ps2.c): modifier state and emitted text over whole
    scancode runs (scan code set 1). */
module Ps2 {
  import opened Bits
  import opened Console

  const LEFT_SHIFT_PRESSED := 0x2A
  const LEFT_SHIFT_RELEASED := 0xAA
  const CAPS_LOCK_PRESSED := 0x3A
  const LAST_SCANCODE := 0x58

  datatype KeyboardState = NormalState | ShiftState | CapsState

  const NUL := 0 as char

  /** The translation table, by rows; it has 58 entries. */
  const ROW_0: seq<char> := [NUL, NUL, '1', '2', '3', '4', '5', '6', '7', '8', '9', '0', '-', '=', NUL, NUL]
  const ROW_1: seq<char> := ['q', 'w', 'e', 'r', 't', 'y', 'u', 'i', 'o', 'p', '[', ']', NUL, NUL, 'a', 's']
  const ROW_2: seq<char> := ['d', 'f', 'g', 'h', 'j', 'k', 'l', ';', '\'', '`', NUL, '\\', 'z', 'x', 'c', 'v']
  const ROW_3: seq<char> := ['b', 'n', 'm', ',', '.', '/', NUL, '*', NUL, ' ']

  const ASCII_TABLE: seq<char> := ROW_0 + ROW_1 + ROW_2 + ROW_3

  /** `ascii_table[scancode]`. The guard admits codes past its end; what is read there is whatever
      memory follows, given here as `beyond`. */
  function TableAt(code: nat, beyond: nat -> char): char {
    if code < |ASCII_TABLE| then ASCII_TABLE[code] else beyond(code)
  }

  /** `toupper`: the letter q is missing from its cases. */
  function ToUpper(c: char): char {
    if 'a' <= c <= 'z' && c != 'q' then (c as int - 'a' as int + 'A' as int) as char else c
  }

  class Keyboard {
    var state: KeyboardState

    constructor ()
      ensures state == NormalState
    {
      state := NormalState;
    }

    /** `ps2_translate2ascii` */
    method Translate(code: Byte, beyond: nat -> char) returns (c: char)
      requires code == CAPS_LOCK_PRESSED ==> state != CapsState
      modifies this
      ensures state == AfterTranslate(old(state), code)
      ensures c == Character(old(state), code, beyond)
    {
      if code > LAST_SCANCODE {
        return NUL;
      }
      if code == LEFT_SHIFT_PRESSED && state != CapsState {
        state := ShiftState;
        return NUL;
      }
      if code == CAPS_LOCK_PRESSED && state == NormalState {
        state := CapsState;
        return NUL;
      } else if code == CAPS_LOCK_PRESSED && state == ShiftState {
        state := CapsState;
        return NUL;
      }
      if TableAt(code, beyond) == NUL {
        return NUL;
      }
      if state == ShiftState || state == CapsState {
        return ToUpper(TableAt(code, beyond));
      } else {
        return TableAt(code, beyond);
      }
    }

    /** `ps2_handler`, for the scancode read from the data port. */
    method Handle(code: Byte, beyond: nat -> char, terminal: Terminal)
      modifies this, terminal
      ensures state == Next(old(state), code)
      ensures terminal.text == old(terminal.text) + Emitted(old(state), code, beyond)
    {
      if code == LEFT_SHIFT_RELEASED && state != CapsState {
        state := NormalState;
      }
      if state == CapsState && code == CAPS_LOCK_PRESSED {
        state := NormalState;
        return;
      }
      var c := Translate(code, beyond);
      if c == NUL {
        return;
      }
      terminal.PrintChar(c);
    }

    /** A run of interrupts from power-on. */
    method Run(codes: seq<Byte>, beyond: nat -> char, terminal: Terminal)
      requires state == NormalState
      modifies this, terminal
      ensures state == StateAfter(codes)
      ensures terminal.text == old(terminal.text) + TextOf(codes, beyond)
    {
      for i := 0 to |codes|
        invariant state == StateAfter(codes[..i])
        invariant terminal.text == old(terminal.text) + TextOf(codes[..i], beyond)
      {
        assert codes[..i + 1][..i] == codes[..i];
        Handle(codes[i], beyond, terminal);
        StateIsMode(codes[..i]);
      }
      assert codes[..|codes|] == codes;
    }
  }

  function AfterTranslate(s: KeyboardState, code: Byte): KeyboardState {
    if code == LEFT_SHIFT_PRESSED && s != CapsState then ShiftState
    else if code == CAPS_LOCK_PRESSED then CapsState
    else s
  }

  /** The character a code stands for in a state, NUL for none. */
  function Character(s: KeyboardState, code: Byte, beyond: nat -> char): char {
    if code > LAST_SCANCODE || code == LEFT_SHIFT_PRESSED || code == CAPS_LOCK_PRESSED then NUL
    else if TableAt(code, beyond) == NUL then NUL
    else if s == NormalState then TableAt(code, beyond)
    else ToUpper(TableAt(code, beyond))
  }

  function Next(s: KeyboardState, code: Byte): KeyboardState {
    if code == CAPS_LOCK_PRESSED then (if s == CapsState then NormalState else CapsState)
    else if s == CapsState then CapsState
    else if code == LEFT_SHIFT_PRESSED then ShiftState
    else if code == LEFT_SHIFT_RELEASED then NormalState
    else s
  }

  function Emitted(s: KeyboardState, code: Byte, beyond: nat -> char): string {
    var c := Character(s, code, beyond);
    if c == NUL then "" else [c]
  }

  function StateAfter(codes: seq<Byte>): KeyboardState {
    if codes == [] then NormalState else Next(StateAfter(codes[..|codes| - 1]), codes[|codes| - 1])
  }

  // ------------------------------------------------------------------
  // The run, described without its states
  // ------------------------------------------------------------------

  predicate CapsOn(codes: seq<Byte>) { multiset(codes)[0x3A] % 2 == 1 }

  predicate Modifier(code: Byte) {
    code == 0x2A || code == 0xAA || code == 0x3A
  }

  /** The last of the three modifier codes seen. */
  function LastModifier(codes: seq<Byte>): Option<Byte> {
    if codes == [] then None
    else if Modifier(codes[|codes| - 1]) then Some(codes[|codes| - 1])
    else LastModifier(codes[..|codes| - 1])
  }

  predicate ShiftOn(codes: seq<Byte>) {
    !CapsOn(codes) && LastModifier(codes) == Some(0x2A)
  }

  function Mode(codes: seq<Byte>): KeyboardState {
    if CapsOn(codes) then CapsState else if ShiftOn(codes) then ShiftState else NormalState
  }

  lemma CapsStep(codes: seq<Byte>, code: Byte)
    ensures CapsOn(codes + [code]) <==> CapsOn(codes) != (code == CAPS_LOCK_PRESSED)
  {
  }

  /** After any run the state is caps exactly when caps lock was pressed an odd number of times, and
      shift exactly when it was an even number and the last modifier code was shift pressed. */
  lemma {:induction false} StateIsMode(codes: seq<Byte>)
    ensures StateAfter(codes) == Mode(codes)
    decreases |codes|
  {
    if codes != [] {
      var front, code := codes[..|codes| - 1], codes[|codes| - 1];
      assert codes == front + [code];
      StateIsMode(front);
      CapsStep(front, code);
    }
  }

  /** The text of a run: every code contributes according to the codes before it. */
  function TextOf(codes: seq<Byte>, beyond: nat -> char): string {
    if codes == [] then ""
    else TextOf(codes[..|codes| - 1], beyond) + Emitted(Mode(codes[..|codes| - 1]), codes[|codes| - 1], beyond)
  }

  /** A code whose translation is read from the table itself, or not looked up at all. */
  predicate WithinTable(code: Byte) {
    !(0x3B <= code <= 0x58)
  }

  lemma {:induction false} SameText(codes: seq<Byte>, beyond: nat -> char, beyond': nat -> char)
    requires forall i :: 0 <= i < |codes| ==> WithinTable(codes[i])
    ensures TextOf(codes, beyond) == TextOf(codes, beyond')
    decreases |codes|
  {
    if codes != [] {
      assert WithinTable(codes[|codes| - 1]);
      SameText(codes[..|codes| - 1], beyond, beyond');
    }
  }

  function Nothing(at: nat): char { NUL }

  function Something(at: nat): char { '?' }

  lemma {:induction false} LongerText(codes: seq<Byte>)
    ensures |TextOf(codes, Nothing)| <= |TextOf(codes, Something)|
    ensures |TextOf(codes, Nothing)| == |TextOf(codes, Something)| ==>
              forall i :: 0 <= i < |codes| ==> WithinTable(codes[i])
    decreases |codes|
  {
    hide Emitted, Mode, WithinTable;
    if codes != [] {
      LongerText(codes[..|codes| - 1]);
      GapEmits(Mode(codes[..|codes| - 1]), codes[|codes| - 1]);
    }
  }

  /** A code of the gap emits a character or not, depending on the memory there. */
  lemma GapEmits(s: KeyboardState, code: Byte)
    ensures |Emitted(s, code, Something)| == |Emitted(s, code, Nothing)| + if WithinTable(code) then 0 else 1
  {
    if !WithinTable(code) {
      assert code >= |ASCII_TABLE|;
    }
  }

  /** The table is shorter than its guard: what a run prints is independent of the memory after the
      table exactly when no code falls in the gap 0x3B to 0x58. */
  lemma TextDefinedIff(codes: seq<Byte>)
    ensures (forall beyond, beyond' :: TextOf(codes, beyond) == TextOf(codes, beyond'))
            <==> forall i :: 0 <= i < |codes| ==> WithinTable(codes[i])
  {
    hide TextOf, WithinTable;
    if forall i :: 0 <= i < |codes| ==> WithinTable(codes[i]) {
      forall beyond, beyond'
        ensures TextOf(codes, beyond) == TextOf(codes, beyond')
      {
        SameText(codes, beyond, beyond');
      }
    } else {
      LongerText(codes);
      assert TextOf(codes, Nothing) != TextOf(codes, Something);
    }
  }

  // ------------------------------------------------------------------
  // The keys
  // ------------------------------------------------------------------

  /** The keys of the US layout, row by row, by their codes in scan code set 1. */
  function Key(code: Byte): string {
    if 0x02 <= code <= 0x0D then ["1234567890-="[code - 0x02]]
    else if 0x10 <= code <= 0x1B then ["qwertyuiop[]"[code - 0x10]]
    else if 0x1E <= code <= 0x29 then ["asdfghjkl;'`"[code - 0x1E]]
    else if 0x2B <= code <= 0x35 then ["\\zxcvbnm,./"[code - 0x2B]]
    else if code == 0x37 then "*"
    else if code == 0x39 then " "
    else ""
  }

  predicate Letter(code: Byte) {
    0x10 <= code <= 0x19 || 0x1E <= code <= 0x26 || 0x2C <= code <= 0x32
  }

  lemma LettersAreLetters(code: Byte)
    ensures Letter(code) <==> Key(code) != "" && 'a' <= Key(code)[0] <= 'z'
    ensures Letter(code) ==> (Key(code)[0] == 'q' <==> code == 0x10)
  {
  }

  /** The capital of a letter key. */
  function Capital(code: Byte): char
    requires Letter(code)
  {
    LettersAreLetters(code);
    (Key(code)[0] as int - 'a' as int + 'A' as int) as char
  }

  /** What a table entry prints. */
  function TableText(c: char): string { if c == NUL then "" else [c] }

  lemma Row0IsKey(code: Byte)
    requires 0x00 <= code < 0x10
    ensures Key(code) == TableText(ROW_0[code - 0x00])
  {
  }

  lemma Row1IsKey(code: Byte)
    requires 0x10 <= code < 0x20
    ensures Key(code) == TableText(ROW_1[code - 0x10])
  {
  }

  lemma Row2IsKey(code: Byte)
    requires 0x20 <= code < 0x30
    ensures Key(code) == TableText(ROW_2[code - 0x20])
  {
  }

  lemma Row3IsKey(code: Byte)
    requires 0x30 <= code < 0x3A
    ensures Key(code) == TableText(ROW_3[code - 0x30])
  {
  }

  lemma TableIsKey(code: Byte)
    requires code < 0x3A
    ensures Key(code) == TableText(ASCII_TABLE[code])
  {
    hide Key, TableText;
    if code < 0x10 {
      Row0IsKey(code);
    } else if code < 0x20 {
      Row1IsKey(code);
    } else if code < 0x30 {
      Row2IsKey(code);
    } else {
      Row3IsKey(code);
    }
  }

  /** What a code types, in any state: its key, except that under shift or caps a letter other than q
      is typed as its capital. Codes above 0x58, among them all releases, type nothing. */
  lemma Typed(s: KeyboardState, code: Byte, beyond: nat -> char)
    requires WithinTable(code)
    ensures Emitted(s, code, beyond)
            == if s != NormalState && Letter(code) && code != 0x10 then [Capital(code)] else Key(code)
  {
    hide Key, Letter;
    LettersAreLetters(code);
    if code < 0x3A {
      TableIsKey(code);
      assert TableAt(code, beyond) == ASCII_TABLE[code];
    }
    NoKey(code);
  }

  /** A code in the gap types whatever the memory there says. */
  lemma TypedBeyond(code: Byte, beyond: nat -> char)
    requires !WithinTable(code)
    ensures Emitted(NormalState, code, beyond) == TableText(beyond(code))
  {
    assert code >= |ASCII_TABLE|;
  }

  lemma NoKey(code: Byte)
    ensures code >= 0x3A || code == 0x2A ==> Key(code) == "" && !Letter(code)
  {
  }

  /** Over a whole run, the text a letter key adds is its capital exactly when it was pressed with
      caps on, or with shift on and caps off, and is not q; otherwise it is the small letter. */
  lemma LetterIff(codes: seq<Byte>, i: nat, beyond: nat -> char)
    requires i < |codes| && Letter(codes[i])
    ensures var typed := TextOf(codes[..i + 1], beyond);
            && (typed == TextOf(codes[..i], beyond) + [Capital(codes[i])]
                <==> (CapsOn(codes[..i]) || ShiftOn(codes[..i])) && codes[i] != 0x10)
            && (!((CapsOn(codes[..i]) || ShiftOn(codes[..i])) && codes[i] != 0x10)
                ==> typed == TextOf(codes[..i], beyond) + Key(codes[i]))
  {
    hide CapsOn, ShiftOn, Key, Letter, Emitted;
    var front := codes[..i];
    assert codes[..i + 1][..i] == front;
    assert TextOf(codes[..i + 1], beyond) == TextOf(front, beyond) + Emitted(Mode(front), codes[i], beyond);
    LettersAreLetters(codes[i]);
    LetterCode(codes[i]);
    Typed(Mode(front), codes[i], beyond);
    assert [Capital(codes[i])] != Key(codes[i]);
    SameFront(TextOf(front, beyond), [Capital(codes[i])], Key(codes[i]));
  }

  lemma LetterCode(code: Byte)
    ensures Letter(code) ==> WithinTable(code) && |Key(code)| == 1
  {
  }

  lemma SameFront(front: string, a: string, b: string)
    ensures front + a == front + b <==> a == b
  {
    assert a == (front + a)[|front|..] && b == (front + b)[|front|..];
  }

  /** A run that presses no modifier types its keys, whatever they are. */
  lemma {:induction false} PlainText(codes: seq<Byte>, beyond: nat -> char)
    requires forall i :: 0 <= i < |codes| ==> WithinTable(codes[i]) && !Modifier(codes[i])
    ensures !CapsOn(codes) && LastModifier(codes) == None && TextOf(codes, beyond) == Keys(codes)
    decreases |codes|
  {
    hide Key, Emitted, WithinTable;
    if codes != [] {
      var front, code := codes[..|codes| - 1], codes[|codes| - 1];
      assert codes == front + [code];
      assert WithinTable(code);
      PlainText(front, beyond);
      CapsStep(front, code);
      Typed(NormalState, code, beyond);
    }
  }

  function Keys(codes: seq<Byte>): string {
    if codes == [] then "" else Keys(codes[..|codes| - 1]) + Key(codes[|codes| - 1])
  }

  /** Over a whole run, every letter pressed while shift or caps is on comes out as a capital exactly
      when none of them is q. */
  lemma CapitalsIff(codes: seq<Byte>, beyond: nat -> char)
    ensures (forall i :: 0 <= i < |codes| && Letter(codes[i]) && Mode(codes[..i]) != NormalState ==>
               Emitted(Mode(codes[..i]), codes[i], beyond) == [Capital(codes[i])])
            <==> (forall i :: 0 <= i < |codes| && Mode(codes[..i]) != NormalState ==> codes[i] != 0x10)
  {
    hide Emitted, Capital, Mode, Key, Letter;
    QIsLetter();
    forall i | 0 <= i < |codes| && Letter(codes[i]) && Mode(codes[..i]) != NormalState
      ensures Emitted(Mode(codes[..i]), codes[i], beyond) == [Capital(codes[i])] <==> codes[i] != 0x10
    {
      LetterCode(codes[i]);
      Typed(Mode(codes[..i]), codes[i], beyond);
    }
  }

  lemma QIsLetter()
    ensures Letter(0x10) && Key(0x10) == "q" && Capital(0x10) == 'Q'
  {
  }

  /** Shift and q: the run prints a small q. */
  lemma ShiftQ(beyond: nat -> char)
    ensures TextOf([0x2A, 0x10], beyond) == "q"
  {
    hide Key, Letter, Emitted;
    var codes: seq<Byte> := [0x2A, 0x10];
    var shift := codes[..1];
    assert shift == [0x2A] && shift[..0] == [];
    assert Mode(shift) == ShiftState by {
      StateIsMode(shift);
      assert StateAfter(shift) == ShiftState;
    }
    QIsLetter();
    Typed(NormalState, 0x2A, beyond);
    NoKey(0x2A);
    Typed(ShiftState, 0x10, beyond);
    assert TextOf(shift, beyond) == "";
    assert TextOf(codes, beyond) == TextOf(shift, beyond) + Emitted(Mode(shift), 0x10, beyond);
  }
}
