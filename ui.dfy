/**
 * The pure string logic and the line editor of `src/ui.rs`: parsing a
 * colon-grouped 64-bit hex value, formatting one, and the `Input` text
 * field whose cursor the key handler moves.
 *
 * Strings are sequences of Unicode scalar values. The editor keeps its
 * cursor as a character index, as the source does; `ByteIndex` gives the
 * UTF-8 byte offset the source computes from it.
 */
module Ui {
  import opened Wrappers
  import opened Bytes

  // ---------------------------------------------------------------------
  // Hex digits

  /** `char::is_ascii_hexdigit`: 0-9, a-f and A-F. */
  predicate IsHexDigit(c: char) {
    ('0' <= c <= '9') || ('a' <= c <= 'f') || ('A' <= c <= 'F')
  }

  /** The value of one hex digit, either case. */
  function HexValue(c: char): (n: nat)
    requires IsHexDigit(c)
    ensures n < 16
  {
    if '0' <= c <= '9' then c as int - '0' as int
    else if 'a' <= c <= 'f' then c as int - 'a' as int + 10
    else c as int - 'A' as int + 10
  }

  /** The lowercase digit `{:x}` writes for a nibble. */
  function HexDigit(n: nat): (c: char)
    requires n < 16
    ensures IsHexDigit(c) && c != ':' && HexValue(c) == n
    ensures !('A' <= c <= 'F')
  {
    if n < 10 then ('0' as int + n) as char else ('a' as int + n - 10) as char
  }

  /** `Uint::from_be_hex`: the big-endian value of a string of hex digits. */
  function FromBeHex(d: string): (v: nat)
    requires forall i :: 0 <= i < |d| ==> IsHexDigit(d[i])
    ensures v < Pow(16, |d|)
  {
    if d == [] then 0
    else
      var init := FromBeHex(d[..|d| - 1]);
      assert init <= Pow(16, |d| - 1) - 1;
      init * 16 + HexValue(d[|d| - 1])
  }

  // ---------------------------------------------------------------------
  // parse_hex_string

  datatype InputValidationError = InvalidInteger | InputNotHex | WrongLength | Other

  predicate HexOrColon(c: char) {
    IsHexDigit(c) || c == ':'
  }

  /** `str::replace(':', "")`. */
  function RemoveColons(s: string): (r: string)
    ensures forall i :: 0 <= i < |r| ==> r[i] != ':'
  {
    if s == [] then []
    else RemoveColons(s[..|s| - 1]) + (if s[|s| - 1] == ':' then [] else [s[|s| - 1]])
  }

  /** What is left is every character that is not a colon. */
  lemma {:induction false} RemoveColonsLength(s: string)
    ensures |RemoveColons(s)| == |s| - multiset(s)[':']
  {
    if s != [] {
      var init := s[..|s| - 1];
      assert s == init + [s[|s| - 1]];
      RemoveColonsLength(init);
    }
  }

  /** Removing colons keeps every other character, in order. */
  lemma {:induction false} RemoveColonsKeepsHex(s: string)
    requires forall i :: 0 <= i < |s| ==> HexOrColon(s[i])
    ensures forall i :: 0 <= i < |RemoveColons(s)| ==> IsHexDigit(RemoveColons(s)[i])
  {
    if s != [] {
      RemoveColonsKeepsHex(s[..|s| - 1]);
    }
  }

  lemma {:induction false} RemoveColonsAppend(a: string, b: string)
    ensures RemoveColons(a + b) == RemoveColons(a) + RemoveColons(b)
    decreases |b|
  {
    if b == [] {
      assert a + b == a;
    } else {
      var ab := a + b;
      assert ab[..|ab| - 1] == a + b[..|b| - 1];
      assert ab[|ab| - 1] == b[|b| - 1];
      RemoveColonsAppend(a, b[..|b| - 1]);
    }
  }

  /**
   * `parse_hex_string`: every character must be a hex digit or ':';
   * with the colons removed, exactly 16 digits must remain; their
   * big-endian value is the result.
   */
  function ParseHexString(s: string): (r: Result<nat, InputValidationError>)
    ensures r == Failure(InputNotHex) <==> exists i :: 0 <= i < |s| && !HexOrColon(s[i])
    ensures r == Failure(WrongLength) <==>
              (forall i :: 0 <= i < |s| ==> HexOrColon(s[i])) && |s| - multiset(s)[':'] != 16
    ensures r.Failure? ==> r.error == InputNotHex || r.error == WrongLength
    ensures r.Success? ==> r.value < WORD_BOUND
  {
    if exists i :: 0 <= i < |s| && !HexOrColon(s[i]) then Failure(InputNotHex)
    else
      var digits := RemoveColons(s);
      RemoveColonsLength(s);
      if |digits| != 16 then Failure(WrongLength)
      else
        RemoveColonsKeepsHex(s);
        WordBoundPowers();
        Success(FromBeHex(digits))
  }

  /** Colons are ignored wherever they stand: only the digits decide the value. */
  lemma ParseIgnoresColons(a: string, b: string)
    ensures ParseHexString(a + [':'] + b) == ParseHexString(a + b)
  {
    var s := a + [':'] + b;
    var t := a + b;
    if forall i :: 0 <= i < |t| ==> HexOrColon(t[i]) {
      forall i | 0 <= i < |s|
        ensures HexOrColon(s[i])
      {
        if i < |a| {
          assert s[i] == t[i];
        } else if i > |a| {
          assert s[i] == t[i - 1];
        }
      }
      RemoveColonsAppend(a + [':'], b);
      RemoveColonsAppend(a, [':']);
      RemoveColonsAppend(a, b);
      assert RemoveColons([':']) == [];
      assert RemoveColons(s) == RemoveColons(t);
      SameDigitsSameParse(s, t);
    } else {
      var i :| 0 <= i < |t| && !HexOrColon(t[i]);
      var j := if i < |a| then i else i + 1;
      assert s[j] == t[i];
    }
  }

  /** Two well-formed inputs with the same digits parse alike. */
  lemma SameDigitsSameParse(s: string, t: string)
    requires forall i :: 0 <= i < |s| ==> HexOrColon(s[i])
    requires forall i :: 0 <= i < |t| ==> HexOrColon(t[i])
    requires RemoveColons(s) == RemoveColons(t)
    ensures ParseHexString(s) == ParseHexString(t)
  {
    assert !exists i :: 0 <= i < |s| && !HexOrColon(s[i]);
    assert !exists i :: 0 <= i < |t| && !HexOrColon(t[i]);
  }

  // ---------------------------------------------------------------------
  // format_bigint

  /** `format!("{:02x}", b)`. */
  function HexPair(b: byte): (r: string)
    ensures |r| == 2
  {
    [HexDigit(b / 16), HexDigit(b % 16)]
  }

  /** The bytes as `hh:` pieces, collected into one string. */
  function ColonTerminated(bs: seq<byte>): (r: string)
    ensures |r| == 3 * |bs|
  {
    if bs == [] then []
    else ColonTerminated(bs[..|bs| - 1]) + HexPair(bs[|bs| - 1]) + [':']
  }

  /** `trim_end_matches(':')`. */
  function TrimEndColons(s: string): (r: string)
    ensures |r| <= |s| && r == s[..|r|]
    ensures r == [] || r[|r| - 1] != ':'
  {
    if s != [] && s[|s| - 1] == ':' then TrimEndColons(s[..|s| - 1]) else s
  }

  /** `format_bigint`: the eight big-endian bytes of `v`, two lowercase digits each, joined by ':'. */
  function FormatBigint(v: nat): (r: string)
    requires v < WORD_BOUND
    ensures |r| == 3 * WORD_BYTES - 1
    ensures r[|r| - 1] != ':'
  {
    var bs := ToBeBytes(v, WORD_BYTES);
    TrimOneColon(bs);
    TrimEndColons(ColonTerminated(bs))
  }

  /** The layout of the `hh:` pieces: every third character a colon, every other one a lowercase digit. */
  lemma {:induction false} ColonTerminatedLayout(bs: seq<byte>)
    ensures forall i :: 0 <= i < 3 * |bs| ==>
              (ColonTerminated(bs)[i] == ':' <==> i % 3 == 2)
    ensures forall i :: 0 <= i < 3 * |bs| && i % 3 != 2 ==>
              IsHexDigit(ColonTerminated(bs)[i]) && !('A' <= ColonTerminated(bs)[i] <= 'F')
  {
    if bs != [] {
      var n := |bs|;
      var init := bs[..n - 1];
      ColonTerminatedLayout(init);
      var s := ColonTerminated(bs);
      var p := HexPair(bs[n - 1]);
      assert s == ColonTerminated(init) + p + [':'];
      forall i | 3 * (n - 1) <= i < 3 * n
        ensures (s[i] == ':' <==> i % 3 == 2)
        ensures i % 3 != 2 ==> IsHexDigit(s[i]) && !('A' <= s[i] <= 'F')
      {
        var k := i - 3 * (n - 1);
        assert i % 3 == k;
        assert s[i] == (p + [':'])[k];
      }
    }
  }

  /** Only the one trailing colon is trimmed. */
  lemma TrimOneColon(bs: seq<byte>)
    requires bs != []
    ensures TrimEndColons(ColonTerminated(bs)) == ColonTerminated(bs)[..3 * |bs| - 1]
  {
    var s := ColonTerminated(bs);
    var p := HexPair(bs[|bs| - 1]);
    var body := ColonTerminated(bs[..|bs| - 1]) + p;
    assert s == body + [':'];
    assert s[..|s| - 1] == body;
    assert body[|body| - 1] == p[1] != ':';
    assert TrimEndColons(body) == body;
  }

  /**
   * What `format_bigint` prints: 23 characters, a colon exactly at every
   * third position, lowercase hex digits everywhere else, and no trailing
   * colon.
   */
  lemma FormatBigintLayout(v: nat)
    requires v < WORD_BOUND
    ensures |FormatBigint(v)| == 23
    ensures forall i :: 0 <= i < 23 ==> (FormatBigint(v)[i] == ':' <==> i % 3 == 2)
    ensures forall i :: 0 <= i < 23 && i % 3 != 2 ==>
              IsHexDigit(FormatBigint(v)[i]) && !('A' <= FormatBigint(v)[i] <= 'F')
  {
    var bs := ToBeBytes(v, WORD_BYTES);
    TrimOneColon(bs);
    ColonTerminatedLayout(bs);
  }

  /** The digits alone: two per byte. */
  function HexDigits(bs: seq<byte>): (r: string)
    ensures |r| == 2 * |bs|
  {
    if bs == [] then [] else HexDigits(bs[..|bs| - 1]) + HexPair(bs[|bs| - 1])
  }

  lemma {:induction false} RemoveColonsOfColonTerminated(bs: seq<byte>)
    ensures RemoveColons(ColonTerminated(bs)) == HexDigits(bs)
  {
    if bs != [] {
      var init := bs[..|bs| - 1];
      var p := HexPair(bs[|bs| - 1]);
      RemoveColonsOfColonTerminated(init);
      RemoveColonsAppend(ColonTerminated(init) + p, [':']);
      RemoveColonsAppend(ColonTerminated(init), p);
      assert RemoveColons(p) == p by {
        assert p == [p[0]] + [p[1]];
        RemoveColonsAppend([p[0]], [p[1]]);
      }
    }
  }

  lemma {:induction false} FromBeHexOfHexDigits(bs: seq<byte>)
    ensures forall i :: 0 <= i < |HexDigits(bs)| ==> IsHexDigit(HexDigits(bs)[i])
    ensures FromBeHex(HexDigits(bs)) == FromBeBytes(bs)
  {
    if bs != [] {
      var init := bs[..|bs| - 1];
      var b := bs[|bs| - 1];
      FromBeHexOfHexDigits(init);
      var d := HexDigits(bs);
      assert d == HexDigits(init) + [HexDigit(b / 16)] + [HexDigit(b % 16)];
      assert d[..|d| - 1] == HexDigits(init) + [HexDigit(b / 16)];
      assert d[..|d| - 1][..|d| - 2] == HexDigits(init);
      calc {
        FromBeHex(d);
        FromBeHex(d[..|d| - 1]) * 16 + b % 16;
        (FromBeHex(HexDigits(init)) * 16 + b / 16) * 16 + b % 16;
        FromBeBytes(init) * 256 + b;
      }
    }
  }

  /** Parsing what `format_bigint` prints gives back the value. */
  lemma ParseFormatRoundTrip(v: nat)
    requires v < WORD_BOUND
    ensures ParseHexString(FormatBigint(v)) == Success(v)
  {
    var bs := ToBeBytes(v, WORD_BYTES);
    var s := FormatBigint(v);
    FormatBigintLayout(v);
    assert !exists i :: 0 <= i < |s| && !HexOrColon(s[i]);
    FormatDigits(v);
    FromBeHexOfHexDigits(bs);
    WordBoundPowers();
    FromToBeBytes(v, WORD_BYTES);
    assert ParseHexString(s) == Success(FromBeHex(HexDigits(bs)));
  }

  /** Without its colons, the printed value is the sixteen digits of its bytes. */
  lemma FormatDigits(v: nat)
    requires v < WORD_BOUND
    ensures RemoveColons(FormatBigint(v)) == HexDigits(ToBeBytes(v, WORD_BYTES))
  {
    var bs := ToBeBytes(v, WORD_BYTES);
    var s := FormatBigint(v);
    var full := ColonTerminated(bs);
    TrimOneColon(bs);
    ColonTerminatedLayout(bs);
    assert full == s + [':'];
    RemoveColonsAppend(s, [':']);
    assert RemoveColons([':']) == [];
    RemoveColonsOfColonTerminated(bs);
  }

  // ---------------------------------------------------------------------
  // The Input line editor

  datatype KeyKind = Press | Repeat | Release

  datatype KeyCode = Char(c: char) | Left | Right | Backspace | End | Home | Enter | OtherKey

  /**
   * A terminal event; `controlOnly` is "the modifiers are exactly CONTROL".
   * Mouse, resize, focus and paste events are `NonKey`.
   */
  datatype Event = Key(kind: KeyKind, code: KeyCode, controlOnly: bool) | NonKey

  /** What one event leaves the loop doing: reading on, returning the text, or bailing out on Ctrl+C. */
  datatype Outcome = Continue | Submit(text: string) | Abort

  /** The editor's abstract state: the text and the cursor, a character index. */
  datatype EditState = EditState(text: string, cursor: nat) {
    /** The cursor never passes the end; the redraw's `count - char_index` cannot underflow. */
    predicate Valid() {
      cursor <= |text|
    }
  }

  function Min(a: nat, b: nat): nat {
    if a <= b then a else b
  }

  /** `cursor_right`: one step right, clamped to the end. */
  function MoveRight(st: EditState): (r: EditState)
    ensures r.Valid() && r.text == st.text
    ensures st.Valid() ==> r.cursor == if st.cursor == |st.text| then st.cursor else st.cursor + 1
  {
    st.(cursor := Min(st.cursor + 1, |st.text|))
  }

  /** `cursor_left`: one step left, stopping at 0. */
  function MoveLeft(st: EditState): (r: EditState)
    ensures r.Valid() && r.text == st.text
    ensures st.Valid() ==> r.cursor == if st.cursor == 0 then 0 else st.cursor - 1
  {
    st.(cursor := Min(if st.cursor == 0 then 0 else st.cursor - 1, |st.text|))
  }

  /** One pass of the `event_loop` match, before redrawing. */
  function Step(st: EditState, ev: Event): (r: (EditState, Outcome))
    requires st.Valid()
    ensures r.0.Valid()
    ensures r.1.Submit? ==> r.1.text == st.text && r.0 == st
    ensures r.1.Abort? ==> r.0 == st
  {
    match ev
    case NonKey => (st, Continue)
    case Key(kind, code, controlOnly) =>
      if kind != Press then (st, Continue)
      else
        match code
        case Char(c) =>
          if c == 'c' && controlOnly then (st, Abort)
          else
            var t := st.text[..st.cursor] + [c] + st.text[st.cursor..];
            (MoveRight(EditState(t, st.cursor)), Continue)
        case Left => (MoveLeft(st), Continue)
        case Right => (MoveRight(st), Continue)
        case Backspace =>
          if st.cursor > 0 then
            var t := st.text[..st.cursor - 1] + st.text[st.cursor..];
            (MoveLeft(EditState(t, st.cursor)), Continue)
          else (st, Continue)
        case End => (st.(cursor := |st.text|), Continue)
        case Home => (st.(cursor := 0), Continue)
        case Enter => (st, Submit(st.text))
        case OtherKey => (st, Continue)
  }

  /** The loop over a sequence of events: it stops at the first Submit or Abort. */
  function Replay(st: EditState, events: seq<Event>): (r: (EditState, Outcome))
    requires st.Valid()
    ensures r.0.Valid()
    decreases |events|
  {
    if events == [] then (st, Continue)
    else
      var (next, o) := Step(st, events[0]);
      if o.Continue? then Replay(next, events[1..]) else (next, o)
  }

  /** A typed character lands at the cursor, the cursor moves past it, and nothing else moves. */
  lemma InsertAtCursor(st: EditState, c: char, controlOnly: bool)
    requires st.Valid() && !(c == 'c' && controlOnly)
    ensures var (r, o) := Step(st, Key(Press, Char(c), controlOnly));
            o == Continue && r.cursor == st.cursor + 1 && |r.text| == |st.text| + 1 &&
            r.text[st.cursor] == c &&
            r.text[..st.cursor] == st.text[..st.cursor] &&
            r.text[st.cursor + 1..] == st.text[st.cursor..]
  {
    var t := st.text[..st.cursor] + [c] + st.text[st.cursor..];
    assert t[..st.cursor] == st.text[..st.cursor];
    assert t[st.cursor + 1..] == st.text[st.cursor..];
  }

  /** Backspace removes exactly the character before the cursor, and does nothing at 0. */
  lemma BackspaceRemovesBefore(st: EditState)
    requires st.Valid()
    ensures var (r, o) := Step(st, Key(Press, Backspace, false));
            o == Continue &&
            if st.cursor == 0 then r == st
            else r.cursor == st.cursor - 1 && |r.text| == |st.text| - 1 &&
                 r.text[..st.cursor - 1] == st.text[..st.cursor - 1] &&
                 r.text[st.cursor - 1..] == st.text[st.cursor..]
  {
    if st.cursor > 0 {
      var t := st.text[..st.cursor - 1] + st.text[st.cursor..];
      assert t[..st.cursor - 1] == st.text[..st.cursor - 1];
      assert t[st.cursor - 1..] == st.text[st.cursor..];
    }
  }

  /** Backspace right after typing a character restores the previous state. */
  lemma BackspaceUndoesInsert(st: EditState, c: char)
    requires st.Valid()
    ensures Step(Step(st, Key(Press, Char(c), false)).0, Key(Press, Backspace, false)).0 == st
  {
    var t := st.text[..st.cursor] + [c] + st.text[st.cursor..];
    var u := t[..st.cursor] + t[st.cursor + 1..];
    assert t[..st.cursor] == st.text[..st.cursor];
    assert t[st.cursor + 1..] == st.text[st.cursor..];
    assert u == st.text;
  }

  /** Left and Right stop at the ends and undo each other in between; Home and End jump to the ends. */
  lemma CursorKeys(st: EditState)
    requires st.Valid()
    ensures st.cursor == 0 ==> Step(st, Key(Press, Left, false)).0 == st
    ensures st.cursor == |st.text| ==> Step(st, Key(Press, Right, false)).0 == st
    ensures st.cursor > 0 ==> Step(Step(st, Key(Press, Left, false)).0, Key(Press, Right, false)).0 == st
    ensures st.cursor < |st.text| ==> Step(Step(st, Key(Press, Right, false)).0, Key(Press, Left, false)).0 == st
    ensures Step(st, Key(Press, Home, false)).0 == EditState(st.text, 0)
    ensures Step(st, Key(Press, End, false)).0 == EditState(st.text, |st.text|)
  {
  }

  /** Only key presses do anything; Ctrl+C aborts from any state. */
  lemma IgnoredAndAbort(st: EditState, code: KeyCode, controlOnly: bool)
    requires st.Valid()
    ensures Step(st, NonKey) == (st, Continue)
    ensures Step(st, Key(Release, code, controlOnly)) == (st, Continue)
    ensures Step(st, Key(Repeat, code, controlOnly)) == (st, Continue)
    ensures Step(st, Key(Press, Char('c'), true)) == (st, Abort)
  {
  }

  /** The key presses that type `s`. */
  function Typing(s: string): (evs: seq<Event>)
    ensures |evs| == |s|
  {
    if s == [] then [] else [Key(Press, Char(s[0]), false)] + Typing(s[1..])
  }

  lemma ReplayContinue(st: EditState, ev: Event, rest: seq<Event>)
    requires st.Valid() && Step(st, ev).1 == Continue
    ensures Replay(st, [ev] + rest) == Replay(Step(st, ev).0, rest)
  {
    assert ([ev] + rest)[1..] == rest;
  }

  lemma TypeAtEnd(t: string, c: char)
    ensures Step(EditState(t, |t|), Key(Press, Char(c), false)) == (EditState(t + [c], |t| + 1), Continue)
  {
    assert t[..|t|] + [c] + t[|t|..] == t + [c];
  }

  lemma {:induction false} TypingAppends(t: string, s: string, rest: seq<Event>)
    ensures Replay(EditState(t, |t|), Typing(s) + rest) == Replay(EditState(t + s, |t + s|), rest)
    decreases |s|
  {
    if s == [] {
      assert Typing(s) + rest == rest;
      assert t + s == t;
    } else {
      var ev := Key(Press, Char(s[0]), false);
      var tail := Typing(s[1..]) + rest;
      assert Typing(s) + rest == [ev] + tail;
      TypeAtEnd(t, s[0]);
      ReplayContinue(EditState(t, |t|), ev, tail);
      var t1 := t + [s[0]];
      assert t1 + s[1..] == t + s;
      calc {
        Replay(EditState(t, |t|), Typing(s) + rest);
        Replay(EditState(t1, |t1|), tail);
        { TypingAppends(t1, s[1..], rest); }
        Replay(EditState(t1 + s[1..], |t1 + s[1..]|), rest);
      }
    }
  }

  /** Typing a line into a fresh editor and pressing Enter submits exactly that line. */
  lemma TypeThenEnter(s: string)
    ensures Replay(EditState([], 0), Typing(s) + [Key(Press, Enter, false)]).1 == Submit(s)
  {
    TypingAppends([], s, [Key(Press, Enter, false)]);
    assert [] + s == s;
  }

  /** The UTF-8 length of one scalar value. */
  function Utf8Len(c: char): (n: nat)
    ensures 1 <= n <= 4
  {
    if c as int < 0x80 then 1
    else if c as int < 0x800 then 2
    else if c as int < 0x1_0000 then 3
    else 4
  }

  /** `str::len`: the UTF-8 length of a string. */
  function Utf8Size(s: string): (n: nat)
    ensures |s| <= n <= 4 * |s|
  {
    if s == [] then 0 else Utf8Size(s[..|s| - 1]) + Utf8Len(s[|s| - 1])
  }

  lemma {:induction false} Utf8SizeAppend(a: string, b: string)
    ensures Utf8Size(a + b) == Utf8Size(a) + Utf8Size(b)
    decreases |b|
  {
    if b == [] {
      assert a + b == a;
    } else {
      var ab := a + b;
      assert ab[..|ab| - 1] == a + b[..|b| - 1];
      assert ab[|ab| - 1] == b[|b| - 1];
      Utf8SizeAppend(a, b[..|b| - 1]);
    }
  }

  lemma {:induction false} AsciiUtf8Size(s: string)
    requires forall i :: 0 <= i < |s| ==> s[i] as int < 0x80
    ensures Utf8Size(s) == |s|
  {
    if s != [] {
      AsciiUtf8Size(s[..|s| - 1]);
    }
  }

  /** On ASCII text, such as the hex digits typed at the prompts, the byte index is the cursor. */
  lemma AsciiByteIndex(input: Input)
    requires input.Valid()
    requires forall i :: 0 <= i < |input.text| ==> input.text[i] as int < 0x80
    ensures input.ByteIndex() == input.charIndex
  {
    AsciiUtf8Size(input.text[..input.charIndex]);
  }

  /** The text and cursor the source mutates in place. */
  class Input {
    var text: string
    var charIndex: nat

    predicate Valid()
      reads this
    {
      charIndex <= |text|
    }

    function State(): (st: EditState)
      reads this
      ensures st.Valid() <==> Valid()
    {
      EditState(text, charIndex)
    }

    /** `Input::new`: empty text, cursor at 0. */
    constructor ()
      ensures Valid() && text == [] && charIndex == 0
    {
      text := [];
      charIndex := 0;
    }

    /**
     * `byte_index`: the UTF-8 offset of the character at the cursor,
     * or the byte length of the text when the cursor is at the end.
     */
    function ByteIndex(): (r: nat)
      reads this
      requires Valid()
      ensures r == Utf8Size(text[..charIndex])
      ensures charIndex <= r <= Utf8Size(text)
      ensures charIndex == |text| ==> r == Utf8Size(text)
      ensures charIndex < |text| ==> r + Utf8Len(text[charIndex]) <= Utf8Size(text)
    {
      var prefix := text[..charIndex];
      Utf8SizeAppend(prefix, text[charIndex..]);
      assert prefix + text[charIndex..] == text;
      if charIndex < |text| then
        assert text[charIndex..] == [text[charIndex]] + text[charIndex + 1..];
        Utf8SizeAppend([text[charIndex]], text[charIndex + 1..]);
        assert Utf8Size([text[charIndex]]) == Utf8Len(text[charIndex]) by {
          assert [text[charIndex]][..0] == [];
        }
        Utf8Size(prefix)
      else
        assert prefix == text;
        Utf8Size(text)
    }

    method CursorRight()
      modifies this
      ensures State() == MoveRight(old(State()))
    {
      var pos := charIndex + 1;
      charIndex := Min(pos, |text|);
    }

    method CursorLeft()
      modifies this
      ensures State() == MoveLeft(old(State()))
    {
      var pos := if charIndex == 0 then 0 else charIndex - 1;
      charIndex := Min(pos, |text|);
    }

    /** The match in `event_loop` applied to one event. */
    method HandleKey(ev: Event) returns (o: Outcome)
      requires Valid()
      modifies this
      ensures Valid()
      ensures (State(), o) == Step(old(State()), ev)
    {
      o := Continue;
      if ev.NonKey? || ev.kind != Press {
        return;
      }
      match ev.code {
        case Char(c) =>
          if c == 'c' && ev.controlOnly {
            o := Abort;
          } else {
            text := text[..charIndex] + [c] + text[charIndex..];
            CursorRight();
          }
        case Left =>
          CursorLeft();
        case Right =>
          CursorRight();
        case Backspace =>
          if charIndex > 0 {
            text := text[..charIndex - 1] + text[charIndex..];
            CursorLeft();
          }
        case End =>
          charIndex := |text|;
        case Home =>
          charIndex := 0;
        case Enter =>
          o := Submit(text);
        case OtherKey =>
      }
    }

    /**
     * `event_loop` over the events the terminal delivers: handles them in
     * order until one submits or aborts. `Continue` means the events ran
     * out while the loop was still reading.
     */
    method EventLoop(events: seq<Event>) returns (o: Outcome)
      requires Valid()
      modifies this
      ensures Valid()
      ensures (State(), o) == Replay(old(State()), events)
    {
      var i := 0;
      o := Continue;
      while i < |events|
        invariant 0 <= i <= |events| && Valid() && o == Continue
        invariant Replay(old(State()), events) == Replay(State(), events[i..])
        decreases |events| - i
      {
        assert events[i..][1..] == events[i + 1..];
        o := HandleKey(events[i]);
        if !o.Continue? {
          return;
        }
        i := i + 1;
      }
    }
  }
}
