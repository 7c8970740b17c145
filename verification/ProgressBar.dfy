/** ProgressBar.cs: a progress bar that redraws only what changed, on a line-oriented terminal. */
module Terminal {

  const BACKSPACE: char := '\U{8}'
  const BLANK: char := ' '

  /** One line of cells, unwritten ones blank, and a cursor. */
  datatype Screen = Screen(cells: map<nat, char>, cursor: nat)

  function At(s: Screen, c: nat): char {
    if c in s.cells then s.cells[c] else BLANK
  }

  function Put(s: Screen, ch: char): Screen {
    if ch == BACKSPACE then s.(cursor := if s.cursor > 0 then s.cursor - 1 else 0)
    else Screen(s.cells[s.cursor := ch], s.cursor + 1)
  }

  function Play(s: Screen, out: string): Screen
    decreases |out|
  {
    if out == [] then s else Play(Put(s, out[0]), out[1..])
  }

  predicate Printable(t: string) {
    forall i :: 0 <= i < |t| ==> t[i] != BACKSPACE
  }

  function Repeat(ch: char, n: nat): (r: string)
    ensures |r| == n && forall i :: 0 <= i < n ==> r[i] == ch
  {
    seq(n, _ => ch)
  }

  lemma {:induction false} PlayConcat(s: Screen, a: string, b: string)
    ensures Play(s, a + b) == Play(Play(s, a), b)
    decreases |a|
  {
    if a == [] {
      assert a + b == b;
    } else {
      assert (a + b)[1..] == a[1..] + b;
      PlayConcat(Put(s, a[0]), a[1..], b);
    }
  }

  /** Writing printable text fills exactly the cells from the cursor on. */
  lemma {:induction false} PlayText(s: Screen, t: string)
    requires Printable(t)
    ensures Play(s, t).cursor == s.cursor + |t|
    ensures forall c: nat :: At(Play(s, t), c)
                          == if s.cursor <= c < s.cursor + |t| then t[c - s.cursor] else At(s, c)
    decreases |t|
  {
    if t != [] {
      PlayText(Put(s, t[0]), t[1..]);
    }
  }

  lemma {:induction false} PlayBackspaces(s: Screen, n: nat)
    requires n <= s.cursor
    ensures Play(s, Repeat(BACKSPACE, n)) == s.(cursor := s.cursor - n)
    ensures forall c: nat :: At(Play(s, Repeat(BACKSPACE, n)), c) == At(s, c)
    decreases n
  {
    if n > 0 {
      assert Repeat(BACKSPACE, n)[1..] == Repeat(BACKSPACE, n - 1);
      PlayBackspaces(Put(s, BACKSPACE), n - 1);
    }
  }

  /** Two screens a viewer cannot tell apart. */
  ghost predicate Same(a: Screen, b: Screen) {
    a.cursor == b.cursor && forall c: nat :: At(a, c) == At(b, c)
  }

  /** From column `start` the line shows exactly `text` and then blanks, the cursor just after the text. */
  ghost predicate Shows(s: Screen, start: nat, text: string) {
    && s.cursor == start + |text|
    && (forall i :: 0 <= i < |text| ==> At(s, start + i) == text[i])
    && (forall c: nat :: c >= start + |text| ==> At(s, c) == BLANK)
  }

  ghost predicate SameLeftOf(a: Screen, b: Screen, start: nat) {
    forall c: nat :: c < start ==> At(a, c) == At(b, c)
  }
}

module ProgressBar {
  import opened Basics
  import opened Terminal

  const BLOCK_COUNT := 10
  const ANIMATION := "|/-\\"

  // ---- The incremental update against erase-and-redraw ----

  function CommonPrefix(a: string, b: string): (n: nat)
    ensures n <= |a| && n <= |b| && a[..n] == b[..n]
    ensures n < |a| && n < |b| ==> a[n] != b[n]
  {
    if a != [] && b != [] && a[0] == b[0] then 1 + CommonPrefix(a[1..], b[1..]) else 0
  }

  /** The output `UpdateText` builds: backspaces, the new suffix, and blanks over what is left of the old text. */
  function Delta(current: string, text: string): string {
    var p := CommonPrefix(text, current);
    Repeat(BACKSPACE, |current| - p) + text[p..]
    + (if |current| > |text| then Repeat(BLANK, |current| - |text|) + Repeat(BACKSPACE, |current| - |text|) else [])
  }

  /** The reference: erase the old text completely, then write the new one. */
  function EraseAndRedraw(current: string, text: string): string {
    Repeat(BACKSPACE, |current|) + Repeat(BLANK, |current|) + Repeat(BACKSPACE, |current|) + text
  }

  /** The screen `s` with the cells from `from` on overwritten by `t` and the cursor after them. */
  ghost predicate Overwritten(s: Screen, now: Screen, from: nat, t: string) {
    && now.cursor == from + |t|
    && forall c: nat :: At(now, c) == if from <= c < from + |t| then t[c - from] else At(s, c)
  }

  /** A kept prefix and a written suffix make the whole text. */
  lemma PrefixAndSuffix(s: Screen, now: Screen, start: nat, p: nat, text: string)
    requires p <= |text| && forall i :: 0 <= i < p ==> At(s, start + i) == text[i]
    requires Overwritten(s, now, start + p, text[p..])
    ensures Overwritten(s, now, start, text)
  {
    forall c: nat
      ensures At(now, c) == if start <= c < start + |text| then text[c - start] else At(s, c)
    {
      if start <= c < start + p {
        assert At(s, start + (c - start)) == text[c - start];
      }
    }
  }

  lemma WriteAt(s: Screen, from: nat, t: string)
    requires Printable(t)
    ensures Overwritten(s, Play(s.(cursor := from), t), from, t)
  {
    PlayText(s.(cursor := from), t);
  }

  /** Backing up and writing overwrites just the cells written. */
  lemma BackAndWrite(s: Screen, n: nat, t: string)
    requires n <= s.cursor && Printable(t)
    ensures Overwritten(s, Play(s, Repeat(BACKSPACE, n) + t), s.cursor - n, t)
  {
    WriteAt(s, s.cursor - n, t);
    calc {
      Play(s, Repeat(BACKSPACE, n) + t);
      { PlayConcat(s, Repeat(BACKSPACE, n), t); }
      Play(Play(s, Repeat(BACKSPACE, n)), t);
      { PlayBackspaces(s, n); }
      Play(s.(cursor := s.cursor - n), t);
    }
  }

  /** Backspacing to the first difference and writing the new suffix puts the whole new text in place. */
  lemma SuffixOverwrites(s: Screen, start: nat, current: string, text: string)
    requires Shows(s, start, current) && Printable(text)
    ensures var p := CommonPrefix(text, current);
            Overwritten(s, Play(s, Repeat(BACKSPACE, |current| - p) + text[p..]), start, text)
  {
    var p := CommonPrefix(text, current);
    var now := Play(s, Repeat(BACKSPACE, |current| - p) + text[p..]);
    assert Printable(text[p..]);
    BackAndWrite(s, |current| - p, text[p..]);
    forall i | 0 <= i < p
      ensures At(s, start + i) == text[i]
    {
      KeptPrefix(s, start, current, text, i);
    }
    PrefixAndSuffix(s, now, start, p, text);
  }

  lemma KeptPrefix(s: Screen, start: nat, current: string, text: string, i: nat)
    requires Shows(s, start, current) && i < CommonPrefix(text, current)
    ensures At(s, start + i) == text[i]
  {
    var p := CommonPrefix(text, current);
    assert text[..p][i] == current[..p][i];
  }

  /** Writing `n` blanks and backing over them only blanks the cells at the cursor. */
  lemma BlankOut(s: Screen, n: nat)
    ensures var now := Play(s, Repeat(BLANK, n) + Repeat(BACKSPACE, n));
            && now.cursor == s.cursor
            && forall c: nat :: At(now, c) == if s.cursor <= c < s.cursor + n then BLANK else At(s, c)
  {
    PlayConcat(s, Repeat(BLANK, n), Repeat(BACKSPACE, n));
    PlayText(s, Repeat(BLANK, n));
    PlayBackspaces(Play(s, Repeat(BLANK, n)), n);
  }

  /** Once the new text is in place, blanking what is left of the old one leaves just the new text showing. */
  lemma BlankedShows(s: Screen, now: Screen, start: nat, current: string, text: string)
    requires Shows(s, start, current) && Overwritten(s, now, start, text)
    ensures var over := if |current| > |text| then |current| - |text| else 0;
            var end := Play(now, Repeat(BLANK, over) + Repeat(BACKSPACE, over));
            Shows(end, start, text) && SameLeftOf(end, s, start)
  {
    var over := if |current| > |text| then |current| - |text| else 0;
    BlankOut(now, over);
  }

  /** The incremental update replaces the shown text and touches nothing left of it. */
  lemma DeltaShows(s: Screen, start: nat, current: string, text: string)
    requires Shows(s, start, current) && Printable(text)
    ensures Shows(Play(s, Delta(current, text)), start, text)
    ensures SameLeftOf(Play(s, Delta(current, text)), s, start)
  {
    var p := CommonPrefix(text, current);
    var first := Repeat(BACKSPACE, |current| - p) + text[p..];
    SuffixOverwrites(s, start, current, text);
    BlankedShows(s, Play(s, first), start, current, text);
    var over := if |current| > |text| then |current| - |text| else 0;
    var rest := Repeat(BLANK, over) + Repeat(BACKSPACE, over);
    PlayConcat(s, first, rest);
    assert Delta(current, text) == first + rest;
  }

  lemma RedrawShows(s: Screen, start: nat, current: string, text: string)
    requires Shows(s, start, current) && Printable(text)
    ensures Shows(Play(s, EraseAndRedraw(current, text)), start, text)
    ensures SameLeftOf(Play(s, EraseAndRedraw(current, text)), s, start)
  {
    var n := |current|;
    var back, erase := Repeat(BACKSPACE, n), Repeat(BLANK, n) + Repeat(BACKSPACE, n);
    assert EraseAndRedraw(current, text) == back + (erase + text);
    PlayConcat(s, back, erase + text);
    PlayBackspaces(s, n);
    var s1 := Play(s, back);
    PlayConcat(s1, erase, text);
    BlankOut(s1, n);
    PlayText(Play(s1, erase), text);
  }

  /** To a viewer the incremental update and erase-and-redraw have the same effect. */
  lemma DeltaRefinesRedraw(s: Screen, start: nat, current: string, text: string)
    requires Shows(s, start, current) && Printable(text)
    ensures Same(Play(s, Delta(current, text)), Play(s, EraseAndRedraw(current, text)))
  {
    DeltaShows(s, start, current, text);
    RedrawShows(s, start, current, text);
    var a, b := Play(s, Delta(current, text)), Play(s, EraseAndRedraw(current, text));
    forall c: nat
      ensures At(a, c) == At(b, c)
    {
      if start <= c < start + |text| {
        assert At(a, start + (c - start)) == text[c - start];
      }
    }
  }

  /** It never writes more characters than erase-and-redraw does. */
  lemma DeltaIsNoLonger(current: string, text: string)
    ensures |Delta(current, text)| <= |EraseAndRedraw(current, text)|
    ensures Delta(current, current) == []
  {
    assert CommonPrefix(current, current) == |current|;
  }

  // ---- The text of one tick ----

  /** The `{2,3}` format item: right-aligned to three characters. */
  function Padded3(n: nat): string {
    var d := Decimal(n);
    Repeat(BLANK, if |d| < 3 then 3 - |d| else 0) + d
  }

  /**
    What the timer draws; `frame` is the animation character. The handler reads the progress twice without keeping
    Report out: `first` gives the blocks, `second` the percentage.
   */
  function TickText(showBar: bool, first: real, second: real, frame: char): string
    requires 0.0 <= first <= 1.0 && 0.0 <= second <= 1.0
  {
    if showBar then
      var blocks := (first * 10.0).Floor;
      "[" + Repeat('#', blocks) + Repeat('-', BLOCK_COUNT - blocks) + "] "
      + Padded3((second * 100.0).Floor) + "% " + [frame]
    else [frame]
  }

  /** Every drawn text is printable and, with the bar shown, exactly nineteen characters long. */
  lemma TickTextShape(showBar: bool, first: real, second: real, frame: char)
    requires 0.0 <= first <= 1.0 && 0.0 <= second <= 1.0 && frame != BACKSPACE
    ensures Printable(TickText(showBar, first, second, frame))
    ensures |TickText(showBar, first, second, frame)| == if showBar then 19 else 1
  {
    var percent := (second * 100.0).Floor;
    DecimalShape(percent);
    assert Printable(Decimal(percent)) by { DecimalPrintable(percent); }
  }

  lemma {:induction false} DecimalPrintable(n: nat)
    ensures Printable(Decimal(n))
  {
    if n >= 10 {
      DecimalPrintable(n / 10);
    }
  }

  /** The number a right-aligned decimal stands for. */
  function NumberIn(s: string): int {
    if s == [] then 0
    else
      var last := s[|s| - 1];
      if '0' <= last <= '9' then 10 * NumberIn(s[..|s| - 1]) + (last as int - '0' as int) else 0
  }

  lemma {:induction false} NumberInDecimal(n: nat, pad: string)
    requires pad == Repeat(BLANK, |pad|)
    ensures NumberIn(pad + Decimal(n)) == n
  {
    var s := pad + Decimal(n);
    assert s[|s| - 1] == DecimalDigit(n % 10);
    if n >= 10 {
      assert s[..|s| - 1] == pad + Decimal(n / 10);
      NumberInDecimal(n / 10, pad);
    } else {
      assert s[..|s| - 1] == pad;
    }
  }

  /** The number of filled blocks a bar of `n` characters shows. */
  function Filled(bar: string): nat {
    if bar == [] then 0 else (if bar[0] == '#' then 1 else 0) + Filled(bar[1..])
  }

  lemma {:induction false} FilledBlocks(blocks: nat, rest: nat)
    ensures Filled(Repeat('#', blocks) + Repeat('-', rest)) == blocks
    decreases blocks + rest
  {
    var bar := Repeat('#', blocks) + Repeat('-', rest);
    if blocks > 0 {
      assert bar[1..] == Repeat('#', blocks - 1) + Repeat('-', rest);
      FilledBlocks(blocks - 1, rest);
    } else if rest > 0 {
      assert bar[1..] == Repeat('#', 0) + Repeat('-', rest - 1);
      FilledBlocks(0, rest - 1);
    }
  }

  /** The three parts of a drawn text. */
  lemma TickTextParts(first: real, second: real, frame: char)
    requires 0.0 <= first <= 1.0 && 0.0 <= second <= 1.0
    ensures var t, blocks := TickText(true, first, second, frame), (first * 10.0).Floor;
            && |t| == 19 && t[0] == '[' && t[11] == ']' && t[18] == frame
            && t[1..11] == Repeat('#', blocks) + Repeat('-', 10 - blocks)
            && t[13..16] == Padded3((second * 100.0).Floor)
  {
    DecimalShape((second * 100.0).Floor);
  }

  /**
    What a viewer reads: block `i` is filled once the first read of the progress has reached (i + 1) tenths, the
    digits are the whole percentage of the second read, and the last character is the frame.
   */
  lemma TickTextReads(first: real, second: real, frame: char)
    requires 0.0 <= first <= 1.0 && 0.0 <= second <= 1.0
    ensures var t := TickText(true, first, second, frame);
            && |t| == 19 && t[0] == '[' && t[11] == ']' && t[18] == frame
            && var bar := t[1..11];
            && (forall i :: 0 <= i < 10 ==> bar[i] == if first * 10.0 >= (i + 1) as real then '#' else '-')
            && Filled(bar) == (first * 10.0).Floor
            && NumberIn(t[13..16]) == (second * 100.0).Floor
  {
    var blocks, percent := (first * 10.0).Floor, (second * 100.0).Floor;
    TickTextParts(first, second, frame);
    FilledBlocks(blocks, 10 - blocks);
    var d := Decimal(percent);
    NumberInDecimal(percent, Repeat(BLANK, if |d| < 3 then 3 - |d| else 0));
    var bar := Repeat('#', blocks) + Repeat('-', 10 - blocks);
    forall i | 0 <= i < 10
      ensures bar[i] == if first * 10.0 >= (i + 1) as real then '#' else '-'
    {
      assert i < blocks <==> first * 10.0 >= (i + 1) as real;
    }
  }

  /** A whole percentage fixes the number of whole tenths. */
  lemma TenthsOfPercent(p: real)
    requires 0.0 <= p <= 1.0
    ensures (p * 10.0).Floor == (p * 100.0).Floor / 10
  {
    var n := (p * 100.0).Floor;
    assert (n / 10) as real <= p * 10.0 < (n / 10 + 1) as real;
  }

  /**
    A drawn text is consistent, that is, some single progress value would have given it, exactly when both reads
    lie in the same tenth; and that is exactly when the filled blocks are the tenths of the percentage.
   */
  lemma OneValueIff(first: real, second: real, frame: char)
    requires 0.0 <= first <= 1.0 && 0.0 <= second <= 1.0
    ensures var t := TickText(true, first, second, frame);
            && |t| == 19
            && ((exists p: real :: 0.0 <= p <= 1.0 && TickText(true, p, p, frame) == t)
                <==> (first * 10.0).Floor == (second * 10.0).Floor)
            && (Filled(t[1..11]) == NumberIn(t[13..16]) / 10 <==> (first * 10.0).Floor == (second * 10.0).Floor)
  {
    var t := TickText(true, first, second, frame);
    TickTextReads(first, second, frame);
    TenthsOfPercent(second);
    if (first * 10.0).Floor == (second * 10.0).Floor {
      assert TickText(true, second, second, frame) == t;
    }
    forall p: real | 0.0 <= p <= 1.0 && TickText(true, p, p, frame) == t
      ensures (first * 10.0).Floor == (second * 10.0).Floor
    {
      TickTextReads(p, p, frame);
      TenthsOfPercent(p);
    }
  }

  // ---- The bar as a state machine ----

  datatype State = State(progress: real, text: string, disposed: bool, index: int, screen: Screen)

  /** The reports of a tick are those other threads make between its two reads of the progress. */
  datatype Op = Report(value: real) | Tick(between: seq<real>) | Dispose

  function Clamp(v: real): real {
    if v < 0.0 then 0.0 else if v > 1.0 then 1.0 else v
  }

  /** The progress after some reports. */
  function Latest(progress: real, reports: seq<real>): (p: real)
    ensures 0.0 <= progress <= 1.0 ==> 0.0 <= p <= 1.0
  {
    if reports == [] then progress else Clamp(reports[|reports| - 1])
  }

  function Update(st: State, text: string): State {
    st.(text := text, screen := Play(st.screen, Delta(st.text, text)))
  }

  /** A tick draws unless the bar is disposed or the animation index has wrapped to an invalid one. */
  predicate Throws(st: State) {
    !st.disposed && Remainder(st.index, |ANIMATION|) < 0
  }

  function AfterTick(st: State, between: seq<real>, showBar: bool): State
    requires 0.0 <= st.progress <= 1.0
  {
    var second := Latest(st.progress, between);
    if st.disposed then st.(progress := second)
    else
      var i := Remainder(st.index, |ANIMATION|);
      var next := st.(index := ToInt32(st.index + 1), progress := second);
      if i < 0 then next else Update(next, TickText(showBar, st.progress, second, ANIMATION[i]))
  }

  function Step(st: State, op: Op, showBar: bool): State
    requires 0.0 <= st.progress <= 1.0
  {
    match op
    case Report(v) => st.(progress := Clamp(v))
    case Tick(between) => AfterTick(st, between, showBar)
    case Dispose => Update(st.(disposed := true), [])
  }

  ghost predicate Inv(st: State, start: nat, before: Screen) {
    && 0.0 <= st.progress <= 1.0
    && Printable(st.text)
    && (st.disposed ==> st.text == [])
    && Shows(st.screen, start, st.text)
    && SameLeftOf(st.screen, before, start)
  }

  lemma StepKeepsInv(st: State, op: Op, showBar: bool, start: nat, before: Screen)
    requires Inv(st, start, before)
    ensures Inv(Step(st, op, showBar), start, before)
    ensures st.disposed ==> Step(st, op, showBar).disposed && Same(Step(st, op, showBar).screen, st.screen)
  {
    match op
    case Report(_) =>
    case Tick(between) =>
      var i := Remainder(st.index, |ANIMATION|);
      if !st.disposed && i >= 0 {
        var second := Latest(st.progress, between);
        TickTextShape(showBar, st.progress, second, ANIMATION[i]);
        DeltaShows(st.screen, start, st.text, TickText(showBar, st.progress, second, ANIMATION[i]));
      }
    case Dispose =>
      DeltaShows(st.screen, start, st.text, []);
      DeltaIsNoLonger([], []);
  }

  /** The state after a whole run of reports, ticks and disposals in any order. */
  function Run(st: State, ops: seq<Op>, showBar: bool): (r: State)
    requires 0.0 <= st.progress <= 1.0
    ensures 0.0 <= r.progress <= 1.0
    decreases |ops|
  {
    if ops == [] then st
    else Run(Step(st, ops[0], showBar), ops[1..], showBar)
  }

  /**
    After every run the line shows exactly the current text and then blanks, nothing left of the start column has
    changed, and once a Dispose has occurred the line is blank for good.
   */
  lemma {:induction false} RunShowsText(st: State, ops: seq<Op>, showBar: bool, start: nat, before: Screen)
    requires Inv(st, start, before)
    ensures Inv(Run(st, ops, showBar), start, before)
    ensures st.disposed || Dispose in ops ==>
              Run(st, ops, showBar).disposed && Shows(Run(st, ops, showBar).screen, start, [])
    decreases |ops|
  {
    if ops != [] {
      StepKeepsInv(st, ops[0], showBar, start, before);
      RunShowsText(Step(st, ops[0], showBar), ops[1..], showBar, start, before);
    }
  }

  /** A bar created with the cursor at the start of a blank stretch of line. */
  predicate Fresh(st: State, start: nat) {
    st.progress == 0.0 && st.text == [] && !st.disposed && st.index == 0
    && st.screen.cursor == start && forall c :: c in st.screen.cells ==> c < start
  }

  /** Started so, every run shows exactly its current text from the start column, and nothing once disposed. */
  lemma FreshRunShowsText(st: State, ops: seq<Op>, showBar: bool, start: nat)
    requires Fresh(st, start)
    ensures var r := Run(st, ops, showBar);
            && Shows(r.screen, start, r.text) && SameLeftOf(r.screen, st.screen, start)
            && (Dispose in ops ==> Shows(r.screen, start, []))
            && ((forall op :: op in ops ==> !op.Tick?) ==> Shows(r.screen, start, []))
  {
    RunShowsText(st, ops, showBar, start, st.screen);
    if forall op :: op in ops ==> !op.Tick? {
      NothingWithoutTicks(st, ops, showBar);
    }
  }

  /** Without a tick, as when the output is redirected and no timer runs, nothing is ever written. */
  lemma {:induction false} NothingWithoutTicks(st: State, ops: seq<Op>, showBar: bool)
    requires 0.0 <= st.progress <= 1.0 && st.text == [] && forall op :: op in ops ==> !op.Tick?
    ensures Run(st, ops, showBar).text == [] && Run(st, ops, showBar).screen == st.screen
    decreases |ops|
  {
    if ops != [] {
      assert ops[0] in ops;
      assert CommonPrefix([], []) == 0 && Delta([], []) == [];
      NothingWithoutTicks(Step(st, ops[0], showBar), ops[1..], showBar);
    }
  }

  // ---- What the drawn text says about the reports ----

  /** The text says: tenths of `first`, whole percentage of `second`, the frame; without the bar just the frame. */
  ghost predicate Says(text: string, showBar: bool, first: real, second: real, frame: char) {
    if showBar then
      && |text| == 19 && text[0] == '[' && text[11] == ']' && text[18] == frame
      && Filled(text[1..11]) == (first * 10.0).Floor
      && NumberIn(text[13..16]) == (second * 100.0).Floor
    else text == [frame]
  }

  /** A live tick that does not throw shows the progress it finds, as it is at each of the two reads. */
  lemma TickDraws(st: State, between: seq<real>, showBar: bool)
    requires 0.0 <= st.progress <= 1.0 && !st.disposed && Remainder(st.index, 4) >= 0
    ensures var t := Step(st, Tick(between), showBar);
            Says(t.text, showBar, st.progress, t.progress, "|/-\\"[Remainder(st.index, 4)])
  {
    if showBar {
      TickTextReads(st.progress, Latest(st.progress, between), ANIMATION[Remainder(st.index, 4)]);
    }
  }

  /** The values reported by one operation. */
  function Reports(op: Op): seq<real> {
    match op
    case Report(v) => [v]
    case Tick(between) => between
    case Dispose => []
  }

  /** All values reported in a run, in order. */
  function Reported(ops: seq<Op>): seq<real> {
    if ops == [] then [] else Reports(ops[0]) + Reported(ops[1..])
  }

  lemma LatestOfBoth(p: real, a: seq<real>, b: seq<real>)
    ensures Latest(Latest(p, a), b) == Latest(p, a + b)
  {
    if b == [] {
      assert a + b == a;
    } else {
      assert (a + b)[|a + b| - 1] == b[|b| - 1];
    }
  }

  lemma StepReports(st: State, op: Op, showBar: bool)
    requires 0.0 <= st.progress <= 1.0
    ensures Step(st, op, showBar).progress == Latest(st.progress, Reports(op))
  {}

  /** The progress is the last value reported. */
  lemma {:induction false} RunReports(st: State, ops: seq<Op>, showBar: bool)
    requires 0.0 <= st.progress <= 1.0
    ensures Run(st, ops, showBar).progress == Latest(st.progress, Reported(ops))
    decreases |ops|
  {
    if ops != [] {
      StepReports(st, ops[0], showBar);
      RunReports(Step(st, ops[0], showBar), ops[1..], showBar);
      LatestOfBoth(st.progress, Reports(ops[0]), Reported(ops[1..]));
    }
  }

  lemma CountStep(st: State, op: Op, showBar: bool, n: nat)
    requires 0.0 <= st.progress <= 1.0 && !st.disposed && st.index == ToInt32(n) && op != Dispose
    ensures var t := Step(st, op, showBar);
            !t.disposed && 0.0 <= t.progress <= 1.0 && t.index == ToInt32(n + if op.Tick? then 1 else 0)
  {
    if op.Tick? {
      TickAdvances(st, op.between, showBar);
      NextIndex(n);
    }
  }

  /** Without a Dispose the animation index counts the ticks. */
  lemma {:induction false} RunCounts(st: State, ops: seq<Op>, showBar: bool, n: nat)
    requires 0.0 <= st.progress <= 1.0 && !st.disposed && st.index == ToInt32(n) && Dispose !in ops
    ensures var r := Run(st, ops, showBar); !r.disposed && r.index == ToInt32(n + LiveTicks(ops))
    decreases |ops|
  {
    if ops != [] {
      assert ops[0] in ops && ops[0] != Dispose;
      var k := n + if ops[0].Tick? then 1 else 0;
      CountStep(st, ops[0], showBar, n);
      RunCounts(Step(st, ops[0], showBar), ops[1..], showBar, k);
      assert k + LiveTicks(ops[1..]) == n + LiveTicks(ops);
    }
  }

  lemma {:induction false} RunConcat(st: State, a: seq<Op>, b: seq<Op>, showBar: bool)
    requires 0.0 <= st.progress <= 1.0
    ensures Run(st, a + b, showBar) == Run(Run(st, a, showBar), b, showBar)
    decreases |a|
  {
    if a == [] {
      assert a + b == b;
    } else {
      assert (a + b)[1..] == a[1..] + b;
      RunConcat(Step(st, a[0], showBar), a[1..], b, showBar);
    }
  }

  /** The last of some reported values cut to 0..1, or no progress before the first. */
  function LastOf(values: seq<real>): real {
    if values == [] then 0.0
    else
      var v := values[|values| - 1];
      if v <= 0.0 then 0.0 else if v >= 1.0 then 1.0 else v
  }

  lemma LatestIsLast(values: seq<real>)
    ensures Latest(0.0, values) == LastOf(values) && 0.0 <= LastOf(values) <= 1.0
  {}

  lemma CountsFromNew(st: State, ops: seq<Op>, showBar: bool)
    requires 0.0 <= st.progress <= 1.0 && !st.disposed && st.index == 0 && Dispose !in ops
    ensures !Run(st, ops, showBar).disposed && Run(st, ops, showBar).index == ToInt32(LiveTicks(ops))
  {
    assert ToInt32(0) == 0;
    RunCounts(st, ops, showBar, 0);
  }

  lemma FrameOfTick(n: nat)
    requires n < 0x8000_0000
    ensures Remainder(ToInt32(n), 4) == n % 4
  {}

  /** The state just before a tick of a new bar that has not been disposed. */
  lemma BeforeTick(st: State, ops: seq<Op>, showBar: bool, start: nat)
    requires Fresh(st, start) && Dispose !in ops && LiveTicks(ops) < 0x8000_0000
    ensures var before := Run(st, ops, showBar);
            && before.progress == LastOf(Reported(ops)) && !before.disposed
            && Remainder(before.index, 4) == LiveTicks(ops) % 4
  {
    RunReports(st, ops, showBar);
    LatestIsLast(Reported(ops));
    CountsFromNew(st, ops, showBar);
    FrameOfTick(LiveTicks(ops));
  }

  /**
    What a new bar shows after any run that ends with a tick: the blocks of the last value reported before the tick,
    the percentage of the last one reported by its second read, both cut to 0..1, and the frame of its number.
   */
  lemma RunDraws(st: State, ops: seq<Op>, between: seq<real>, showBar: bool, start: nat)
    requires Fresh(st, start) && Dispose !in ops && LiveTicks(ops) < 0x8000_0000
    ensures Says(Run(st, ops + [Tick(between)], showBar).text, showBar,
                 LastOf(Reported(ops)), LastOf(Reported(ops) + between), "|/-\\"[LiveTicks(ops) % 4])
  {
    var before := Run(st, ops, showBar);
    BeforeTick(st, ops, showBar, start);
    RunConcat(st, ops, [Tick(between)], showBar);
    LatestOfBoth(0.0, Reported(ops), between);
    LatestIsLast(Reported(ops));
    LatestIsLast(Reported(ops) + between);
    LastTick(before, between, showBar);
    TickDraws(before, between, showBar);
  }

  lemma LastTick(st: State, between: seq<real>, showBar: bool)
    requires 0.0 <= st.progress <= 1.0
    ensures Run(st, [Tick(between)], showBar) == Step(st, Tick(between), showBar)
    ensures Step(st, Tick(between), showBar).progress == Latest(st.progress, between)
  {
    assert [Tick(between)][1..] == [];
  }

  // ---- When a tick fails ----

  /** Ticks that come before the first Dispose. */
  function LiveTicks(ops: seq<Op>): nat {
    if ops == [] || ops[0].Dispose? then 0
    else (if ops[0].Tick? then 1 else 0) + LiveTicks(ops[1..])
  }

  predicate RunThrows(st: State, ops: seq<Op>, showBar: bool)
    requires 0.0 <= st.progress <= 1.0
    decreases |ops|
  {
    ops != [] && ((ops[0].Tick? && Throws(st)) || RunThrows(Step(st, ops[0], showBar), ops[1..], showBar))
  }

  /** The tick with this number (from 0) finds an invalid animation index. */
  predicate BadTick(k: nat) {
    Remainder(ToInt32(k), |ANIMATION|) < 0
  }

  lemma {:induction false} DisposedNeverThrows(st: State, ops: seq<Op>, showBar: bool)
    requires 0.0 <= st.progress <= 1.0 && st.disposed
    ensures !RunThrows(st, ops, showBar)
    decreases |ops|
  {
    if ops != [] {
      DisposedNeverThrows(Step(st, ops[0], showBar), ops[1..], showBar);
    }
  }

  /** Some tick with a number from `n` up to `m` finds an invalid index. */
  ghost predicate BadBetween(n: nat, m: nat) {
    exists k :: n <= k < m && BadTick(k)
  }

  lemma BadBetweenStep(n: nat, m: nat)
    requires n < m
    ensures BadBetween(n, m) <==> BadTick(n) || BadBetween(n + 1, m)
  {}

  lemma TickAdvances(st: State, between: seq<real>, showBar: bool)
    requires 0.0 <= st.progress <= 1.0 && !st.disposed
    ensures var t := AfterTick(st, between, showBar);
            t.index == ToInt32(st.index + 1) && !t.disposed && 0.0 <= t.progress <= 1.0
  {}

  lemma NextIndex(n: nat)
    ensures ToInt32(ToInt32(n) + 1) == ToInt32(n + 1)
  {}

  lemma ThrowsOrLater(st: State, op: Op, rest: seq<Op>, showBar: bool)
    requires 0.0 <= st.progress <= 1.0
    ensures RunThrows(st, [op] + rest, showBar) <==>
              (op.Tick? && Throws(st)) || RunThrows(Step(st, op, showBar), rest, showBar)
    ensures LiveTicks([op] + rest) == if op.Dispose? then 0 else (if op.Tick? then 1 else 0) + LiveTicks(rest)
  {
    assert ([op] + rest)[1..] == rest;
  }

  lemma {:induction false} RunThrowsFrom(st: State, ops: seq<Op>, showBar: bool, n: nat)
    requires 0.0 <= st.progress <= 1.0 && !st.disposed && st.index == ToInt32(n)
    ensures RunThrows(st, ops, showBar) <==> BadBetween(n, n + LiveTicks(ops))
    decreases |ops|
  {
    if ops != [] {
      var op, rest := ops[0], ops[1..];
      assert ops == [op] + rest;
      ThrowsOrLater(st, op, rest, showBar);
      if op == Dispose {
        DisposedNeverThrows(Step(st, op, showBar), rest, showBar);
      } else {
        var k := n + if op.Tick? then 1 else 0;
        CountStep(st, op, showBar, n);
        RunThrowsFrom(Step(st, op, showBar), rest, showBar, k);
        if op.Tick? {
          BadBetweenStep(n, k + LiveTicks(rest));
        }
      }
    }
  }

  /** From a new bar, some tick fails exactly when more than 2147483649 ticks precede the first Dispose. */
  lemma RunThrowsIff(st: State, ops: seq<Op>, showBar: bool, start: nat)
    requires Fresh(st, start)
    ensures RunThrows(st, ops, showBar) <==> LiveTicks(ops) > 0x8000_0001
  {
    RunThrowsFrom(st, ops, showBar, 0);
    assert BadTick(0x8000_0001);
    forall k: nat | k < 0x8000_0001
      ensures !BadTick(k)
    {}
  }

  // ---- The class ----

  class Bar {
    const showProgressBar: bool
    var currentProgress: real
    var currentText: string
    var disposed: bool
    var animationIndex: int
    var console: Screen

    ghost function Now(): State
      reads this
    {
      State(currentProgress, currentText, disposed, animationIndex, console)
    }

    ghost predicate Valid(start: nat, before: Screen)
      reads this
    {
      Inv(Now(), start, before)
    }

    constructor (show: bool, screen: Screen)
      ensures showProgressBar == show && Now() == State(0.0, [], false, 0, screen)
    {
      showProgressBar := show;
      currentProgress, currentText, disposed, animationIndex := 0.0, [], false, 0;
      console := screen;
    }

    method Report(value: real)
      modifies this`currentProgress
      ensures Now() == old(Now()).(progress := Clamp(value))
      ensures 0.0 <= currentProgress <= 1.0
    {
      var v := if value < 1.0 then value else 1.0;
      currentProgress := if v > 0.0 then v else 0.0;
    }

    /** The reports of other threads, in the order in which their exchanges happen. */
    method ReportAll(values: seq<real>)
      requires 0.0 <= currentProgress <= 1.0
      modifies this`currentProgress
      ensures currentProgress == Latest(old(currentProgress), values)
    {
      for i := 0 to |values|
        invariant currentProgress == Latest(old(currentProgress), values[..i])
      {
        Report(values[i]);
      }
      assert values[..|values|] == values;
    }

    /**
      `TimerHandler`; `threw` is the IndexOutOfRangeException of a negative animation index. The lock it holds keeps
      other ticks and Dispose out but not Report: `between` are the reports between its two reads of the progress.
     */
    method TimerHandler(between: seq<real>, ghost start: nat, ghost before: Screen) returns (threw: bool)
      requires Valid(start, before)
      modifies this
      ensures Now() == Step(old(Now()), Tick(between), showProgressBar) && Valid(start, before)
      ensures threw <==> Throws(old(Now()))
      ensures !disposed && !threw ==>
                Says(currentText, showProgressBar, old(currentProgress), currentProgress,
                     "|/-\\"[Remainder(old(animationIndex), 4)])
    {
      StepKeepsInv(Now(), Tick(between), showProgressBar, start, before);
      if !Throws(Now()) && !disposed {
        TickDraws(Now(), between, showProgressBar);
      }
      var first := currentProgress;
      ReportAll(between);
      if disposed {
        return false;
      }
      var second := currentProgress;
      var i := Remainder(animationIndex, |ANIMATION|);
      animationIndex := ToInt32(animationIndex + 1);
      if i < 0 {
        return true;
      }
      UpdateText(TickText(showProgressBar, first, second, ANIMATION[i]));
      threw := false;
    }

    /** The scan for the common portion. */
    method CommonPrefixLength(text: string) returns (n: nat)
      ensures n == CommonPrefix(text, currentText)
    {
      n := 0;
      var commonLength := if |currentText| < |text| then |currentText| else |text|;
      assert text[0..] == text && currentText[0..] == currentText;
      while n < commonLength && text[n] == currentText[n]
        invariant n <= commonLength
        invariant CommonPrefix(text, currentText) == n + CommonPrefix(text[n..], currentText[n..])
      {
        assert text[n..][1..] == text[n + 1..] && currentText[n..][1..] == currentText[n + 1..];
        n := n + 1;
      }
    }

    method UpdateText(text: string)
      modifies this`console, this`currentText
      ensures Now() == Update(old(Now()), text)
    {
      var commonPrefixLength := CommonPrefixLength(text);
      var output := Repeat(BACKSPACE, |currentText| - commonPrefixLength);
      output := output + text[commonPrefixLength..];
      var overlapCount := |currentText| - |text|;
      if overlapCount > 0 {
        output := output + (Repeat(BLANK, overlapCount) + Repeat(BACKSPACE, overlapCount));
      }
      assert output == Delta(currentText, text);
      console := Play(console, output);
      currentText := text;
    }

    method Dispose(ghost start: nat, ghost before: Screen)
      requires Valid(start, before)
      modifies this
      ensures Now() == Step(old(Now()), Op.Dispose, showProgressBar) && Valid(start, before)
      ensures Shows(console, start, [])
    {
      StepKeepsInv(Now(), Op.Dispose, showProgressBar, start, before);
      disposed := true;
      UpdateText([]);
    }
  }
}
