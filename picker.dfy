/**
 * The terminal date picker: a window of seven consecutive days, a cursor in
 * it, a scroll offset, the set of selected days and the help toggle.
 *
 * Days are day numbers (days since 1970-01-01) and "now" is passed in: the
 * picker reads the clock when it is created and again each time it scrolls.
 * A selected day is stored under its identity, its `YYYY-MM-DD` text
 * (module DateOnly).
 *
 * The picker is a Go value whose `dates` slice and `selected` map are
 * references: `Update` works on a copy and returns it, and the copy shares
 * the window array and the selection with the value it came from.  `Model`
 * keeps exactly that shape (an array and a `Selection` object inside a
 * datatype value).  `State`, `Step` and `Run` are its abstract view and
 * transition function; `Update` and `RunSession` are proved against them.
 */
module DatePicker {
  import opened Wrappers
  import DateOnly

  /** The number of days on screen. */
  const WindowSize: nat := 7

  /** A message to the picker: a key of one of its bindings, or anything else (`Unbound`). */
  datatype Event = GoToStart | GoToEnd | Up | Down | Select | Help | Quit | Validate | Unbound

  /** What `Update` asks of the program: nothing, or to quit. */
  datatype Cmd = NoCmd | QuitCmd

  /** The picker as a value: the window, cursor, offset, selected identities and the help flag. */
  datatype State = State(dates: seq<int>, cursor: int, offset: int, selected: set<string>, showAll: bool)

  /** The identity of a day in the selection: its `YYYY-MM-DD` text, ten characters for a four-digit year. */
  function Identity(d: int): (k: string)
    ensures |k| >= 10
    ensures |k| == 10 <==> DateOnly.Representable(d)
  {
    DateOnly.Format(d)
  }

  /** `n` consecutive days starting `offset` days after `now`. */
  function Window(now: int, offset: int, n: nat): (w: seq<int>)
    ensures |w| == n
    ensures forall i :: 0 <= i < n ==> w[i] == now + offset + i
  {
    seq(n, i => now + offset + i)
  }

  /** The cursor points into the window. */
  predicate WellFormed(s: State)
  {
    0 <= s.cursor < |s.dates|
  }

  /** The picker's invariant relative to a fixed day `today`: seven consecutive days from `today + offset`. */
  predicate Valid(s: State, today: int)
  {
    |s.dates| == WindowSize && 0 <= s.cursor < WindowSize && s.dates == Window(today, s.offset, WindowSize)
  }

  /** The day under the cursor. */
  function Focus(s: State): int
    requires WellFormed(s)
  {
    s.dates[s.cursor]
  }

  /** The picker as `New` builds it on day `now`. */
  function Initial(now: int): (s: State)
    ensures Valid(s, now)
  {
    State(Window(now, 0, WindowSize), 0, 0, {}, false)
  }

  /** `key` taken out of `sel` if it is in it, put in otherwise. */
  function Toggled(sel: set<string>, key: string): set<string>
  {
    if key in sel then sel - {key} else sel + {key}
  }

  /** The transition of `Update`, with the clock reading `now` used if the window scrolls. */
  function Step(s: State, e: Event, now: int): (r: (State, Cmd))
    requires WellFormed(s)
    ensures WellFormed(r.0) && |r.0.dates| == |s.dates|
  {
    match e
    case GoToStart => (s, NoCmd)
    case GoToEnd => (s, NoCmd)
    case Up =>
      if s.cursor > 0 then (s.(cursor := s.cursor - 1), NoCmd)
      else (s.(offset := s.offset - 1, dates := Window(now, s.offset - 1, |s.dates|)), NoCmd)
    case Down =>
      if s.cursor < |s.dates| - 1 then (s.(cursor := s.cursor + 1), NoCmd)
      else (s.(offset := s.offset + 1, dates := Window(now, s.offset + 1, |s.dates|)), NoCmd)
    case Select => (s.(selected := Toggled(s.selected, Identity(s.dates[s.cursor]))), NoCmd)
    case Validate => (s, QuitCmd)
    case Quit => (s.(selected := {}), QuitCmd)
    case Help => (s.(showAll := !s.showAll), NoCmd)
    case Unbound => (s, NoCmd)
  }

  /** The program's event loop: apply events in order until one asks to quit; later events are never read. */
  function Run(s: State, events: seq<Event>, now: int): (r: (State, Cmd))
    requires WellFormed(s)
    ensures WellFormed(r.0) && |r.0.dates| == |s.dates|
    decreases |events|
  {
    if events == [] then (s, NoCmd)
    else
      var next := Step(s, events[0], now);
      if next.1 == QuitCmd then next else Run(next.0, events[1..], now)
  }

  /** Events that end the session. */
  predicate Terminates(e: Event)
  {
    e == Quit || e == Validate
  }

  // ------------------------------------------------------------ properties of Step and Run

  /** Every event keeps the window seven consecutive days from `today + offset`, and the cursor inside it. */
  lemma StepKeepsValid(s: State, e: Event, today: int)
    requires Valid(s, today)
    ensures Valid(Step(s, e, today).0, today)
  {
  }

  /** From the initial picker, any sequence of events keeps the window and cursor invariant. */
  lemma {:induction false} RunKeepsValid(s: State, events: seq<Event>, today: int)
    requires Valid(s, today)
    ensures Valid(Run(s, events, today).0, today)
    decreases |events|
  {
    if events != [] {
      StepKeepsValid(s, events[0], today);
      RunKeepsValid(Step(s, events[0], today).0, events[1..], today);
    }
  }

  /** Up always moves the focus one day back: inside the window by the cursor, at its top by scrolling. */
  lemma UpMovesFocusBack(s: State, today: int)
    requires Valid(s, today)
    ensures var (s', cmd) := Step(s, Up, today);
      && cmd == NoCmd
      && Focus(s') == Focus(s) - 1
      && (s.cursor > 0 ==> s' == s.(cursor := s.cursor - 1))
      && (s.cursor == 0 ==> s' == s.(offset := s.offset - 1, dates := Window(today, s.offset - 1, WindowSize)))
  {
  }

  /** Down always moves the focus one day forward: inside the window by the cursor, at its bottom by scrolling. */
  lemma DownMovesFocusForward(s: State, today: int)
    requires Valid(s, today)
    ensures var (s', cmd) := Step(s, Down, today);
      && cmd == NoCmd
      && Focus(s') == Focus(s) + 1
      && (s.cursor < WindowSize - 1 ==> s' == s.(cursor := s.cursor + 1))
      && (s.cursor == WindowSize - 1 ==> s' == s.(offset := s.offset + 1, dates := Window(today, s.offset + 1, WindowSize)))
  {
  }

  /** Select flips the membership of the focused day's identity and of no other identity. */
  lemma SelectTogglesFocus(s: State, now: int)
    requires WellFormed(s)
    ensures var (s', cmd) := Step(s, Select, now);
      && cmd == NoCmd
      && s'.(selected := s.selected) == s
      && forall k :: k in s'.selected <==> (k in s.selected <==> k != Identity(Focus(s)))
  {
  }

  /** `show` never gives two days the same text. */
  ghost predicate Injective(show: int -> string)
  {
    forall a, b :: show(a) == show(b) ==> a == b
  }

  /** Different days have different identities. */
  lemma IdentityInjective()
    ensures Injective(Identity)
  {
    forall a, b | Identity(a) == Identity(b)
      ensures a == b
    {
      DateOnly.FormatInjective(a, b);
    }
  }

  /** Toggling the text of one day, under an injective `show`, changes the membership of that day only. */
  lemma ToggledOnlyAt(sel: set<string>, show: int -> string, focus: int)
    requires Injective(show)
    ensures forall d :: show(d) in Toggled(sel, show(focus)) <==> (show(d) in sel <==> d != focus)
  {
  }

  /** Select changes whether the focused day is selected, and whether any other day is selected it does not change. */
  lemma SelectTogglesFocusedDayOnly(s: State, now: int)
    requires WellFormed(s)
    ensures forall d :: Identity(d) in Step(s, Select, now).0.selected <==> (Identity(d) in s.selected <==> d != Focus(s))
  {
    IdentityInjective();
    ToggledOnlyAt(s.selected, Identity, Focus(s));
  }

  /** Selecting twice on the same day gives back the state it started from. */
  lemma SelectTwiceRestores(s: State, now: int)
    requires WellFormed(s)
    ensures Step(Step(s, Select, now).0, Select, now) == (s, NoCmd)
  {
    var key := Identity(Focus(s));
    if key in s.selected {
      assert s.selected - {key} + {key} == s.selected;
    } else {
      assert s.selected + {key} - {key} == s.selected;
    }
  }

  /** Quit ends the session with an empty selection; Validate ends it with the state as it is. */
  lemma QuitAndValidate(s: State, now: int)
    requires WellFormed(s)
    ensures Step(s, Quit, now) == (s.(selected := {}), QuitCmd)
    ensures Step(s, Validate, now) == (s, QuitCmd)
  {
  }

  /** Help flips the help flag and nothing else. */
  lemma HelpFlipsFlag(s: State, now: int)
    requires WellFormed(s)
    ensures Step(s, Help, now) == (s.(showAll := !s.showAll), NoCmd)
  {
  }

  /** The bindings GoToStart and GoToEnd change nothing. */
  lemma GoToKeysChangeNothing(s: State, now: int)
    requires WellFormed(s)
    ensures Step(s, GoToStart, now) == (s, NoCmd)
    ensures Step(s, GoToEnd, now) == (s, NoCmd)
  {
  }

  /** A message that matches no binding falls through and changes nothing. */
  lemma UnboundChangesNothing(s: State, now: int)
    requires WellFormed(s)
    ensures Step(s, Unbound, now) == (s, NoCmd)
  {
  }

  /** An event asks the program to quit exactly when it is Quit or Validate. */
  lemma QuitCmdIffTerminates(s: State, e: Event, now: int)
    requires WellFormed(s)
    ensures Step(s, e, now).1 == QuitCmd <==> Terminates(e)
  {
  }

  /** Running two batches of events, the first of which does not end the session, is running them together. */
  lemma {:induction false} RunAppend(s: State, before: seq<Event>, after: seq<Event>, now: int)
    requires WellFormed(s)
    requires forall i :: 0 <= i < |before| ==> !Terminates(before[i])
    ensures Run(s, before, now).1 == NoCmd
    ensures Run(s, before + after, now) == Run(Run(s, before, now).0, after, now)
    decreases |before|
  {
    if before != [] {
      QuitCmdIffTerminates(s, before[0], now);
      var next := Step(s, before[0], now);
      assert (before + after)[0] == before[0];
      assert (before + after)[1..] == before[1..] + after;
      RunAppend(next.0, before[1..], after, now);
      assert Run(s, before, now) == Run(next.0, before[1..], now);
      assert Run(s, before + after, now) == Run(next.0, before[1..] + after, now);
    } else {
      assert before + after == after;
    }
  }

  /** Whatever was selected, quitting ends the session with nothing selected; later events are ignored. */
  lemma QuitDiscardsSelection(s: State, before: seq<Event>, after: seq<Event>, now: int)
    requires WellFormed(s)
    requires forall i :: 0 <= i < |before| ==> !Terminates(before[i])
    ensures Run(s, before + [Quit] + after, now) == (Run(s, before, now).0.(selected := {}), QuitCmd)
  {
    RunAppend(s, before, [Quit] + after, now);
    assert before + [Quit] + after == before + ([Quit] + after);
  }

  /** Validating ends the session with the selection built so far; later events are ignored. */
  lemma ValidateKeepsSelection(s: State, before: seq<Event>, after: seq<Event>, now: int)
    requires WellFormed(s)
    requires forall i :: 0 <= i < |before| ==> !Terminates(before[i])
    ensures Run(s, before + [Validate] + after, now) == (Run(s, before, now).0, QuitCmd)
  {
    RunAppend(s, before, [Validate] + after, now);
    assert before + [Validate] + after == before + ([Validate] + after);
  }

  /** Seven Downs from the start: six move the cursor to the bottom, the seventh scrolls one day. */
  lemma ScrollPastBottom(today: int)
    ensures Run(Initial(today), [Down, Down, Down, Down, Down, Down, Down], today)
         == (State(Window(today, 1, WindowSize), 6, 1, {}, false), NoCmd)
  {
    var s0 := Initial(today);
    var downs := [Down, Down, Down, Down, Down, Down, Down];
    var s6 := s0.(cursor := 6);
    RunAppend(s0, downs[..6], [Down], today);
    assert downs == downs[..6] + [Down];
    assert Run(s0, downs[..6], today).0 == s6 by {
      var k := 0;
      while k < 6
        invariant 0 <= k <= 6
        invariant Run(s0, downs[..6], today) == Run(s0.(cursor := k), downs[k..6], today)
      {
        assert downs[k..6][1..] == downs[k + 1..6];
        k := k + 1;
      }
    }
  }

  // ------------------------------------------------------------ the Go value and its methods

  /** The `selected` map of the picker: a reference shared by every copy of the value. */
  class Selection {
    var keys: set<string>

    constructor ()
      ensures keys == {}
    {
      keys := {};
    }
  }

  /** The picker value: the window array and the selection are references, the rest is copied. */
  datatype Model = Model(dates: array<int>, cursor: int, selected: Selection, offset: int, showAll: bool)

  function Abs(m: Model): State
    reads m.dates, m.selected
  {
    State(m.dates[..], m.cursor, m.offset, m.selected.keys, m.showAll)
  }

  /** A picker showing the seven days from `now`, cursor on the first, nothing selected. */
  method New(now: int) returns (m: Model)
    ensures fresh(m.dates) && fresh(m.selected)
    ensures Abs(m) == Initial(now)
  {
    var dates := new int[WindowSize];
    for i := 0 to WindowSize
      invariant forall j :: 0 <= j < i ==> dates[j] == now + j
    {
      dates[i] := now + i;
    }
    var selected := new Selection();
    m := Model(dates, 0, selected, 0, false);
  }

  /** Rewrites the window in place with the days from `now + offset`. */
  method UpdateDates(m: Model, now: int)
    modifies m.dates
    ensures m.dates[..] == Window(now, m.offset, m.dates.Length)
  {
    for i := 0 to m.dates.Length
      invariant forall j :: 0 <= j < i ==> m.dates[j] == now + j + m.offset
    {
      m.dates[i] := now + i + m.offset;
    }
  }

  /** The Up key: the cursor moves up, or at the top the window scrolls one day back. */
  method MoveUp(m: Model, now: int) returns (m': Model)
    requires 0 <= m.cursor < m.dates.Length
    modifies m.dates
    ensures m'.dates == m.dates && m'.selected == m.selected
    ensures Abs(m') == Step(old(Abs(m)), Up, now).0
  {
    if m.cursor > 0 {
      m' := m.(cursor := m.cursor - 1);
    } else {
      m' := m.(offset := m.offset - 1);
      UpdateDates(m', now);
    }
  }

  /** The Down key: the cursor moves down, or at the bottom the window scrolls one day forward. */
  method MoveDown(m: Model, now: int) returns (m': Model)
    requires 0 <= m.cursor < m.dates.Length
    modifies m.dates
    ensures m'.dates == m.dates && m'.selected == m.selected
    ensures Abs(m') == Step(old(Abs(m)), Down, now).0
  {
    if m.cursor < m.dates.Length - 1 {
      m' := m.(cursor := m.cursor + 1);
    } else {
      m' := m.(offset := m.offset + 1);
      UpdateDates(m', now);
    }
  }

  /** The Select key: the identity of the day under the cursor leaves the selection if it was in it, and joins it otherwise. */
  method Toggle(m: Model)
    requires 0 <= m.cursor < m.dates.Length
    modifies m.selected
    ensures m.selected.keys == Toggled(old(m.selected.keys), Identity(m.dates[m.cursor]))
  {
    var key := Identity(m.dates[m.cursor]);
    if key in m.selected.keys {
      m.selected.keys := m.selected.keys - {key};
    } else {
      m.selected.keys := m.selected.keys + {key};
    }
  }

  /** Handles one message; the returned value shares the window array and the selection with `m`. */
  method Update(m: Model, e: Event, now: int) returns (m': Model, cmd: Cmd)
    requires 0 <= m.cursor < m.dates.Length
    modifies m.dates, m.selected
    ensures m'.dates == m.dates && m'.selected == m.selected
    ensures (Abs(m'), cmd) == Step(old(Abs(m)), e, now)
  {
    m', cmd := m, NoCmd;
    match e {
      case GoToStart =>
      case GoToEnd =>
      case Up =>
        m' := MoveUp(m, now);
      case Down =>
        m' := MoveDown(m, now);
      case Select =>
        Toggle(m);
      case Validate =>
        cmd := QuitCmd;
      case Quit =>
        m.selected.keys := {};
        cmd := QuitCmd;
      case Help =>
        m' := m.(showAll := !m.showAll);
      case Unbound =>
    }
  }

  /** The program loop: feeds the events to `Update` until it asks to quit. */
  method RunSession(m: Model, events: seq<Event>, now: int) returns (final: Model, cmd: Cmd)
    requires 0 <= m.cursor < m.dates.Length
    modifies m.dates, m.selected
    ensures final.dates == m.dates && final.selected == m.selected
    ensures (Abs(final), cmd) == Run(old(Abs(m)), events, now)
  {
    final, cmd := m, NoCmd;
    var i := 0;
    while i < |events| && cmd == NoCmd
      invariant 0 <= i <= |events|
      invariant final.dates == m.dates && final.selected == m.selected
      invariant 0 <= final.cursor < final.dates.Length
      invariant Run(old(Abs(m)), events, now)
             == if cmd == QuitCmd then (Abs(final), cmd) else Run(Abs(final), events[i..], now)
    {
      assert events[i..][1..] == events[i + 1..];
      final, cmd := Update(final, events[i], now);
      i := i + 1;
    }
  }

  // ------------------------------------------------------------ extracting the selection

  predicate Ascending(s: seq<int>)
  {
    forall i, j :: 0 <= i < j < |s| ==> s[i] <= s[j]
  }

  predicate StrictlyAscending(s: seq<int>)
  {
    forall i, j :: 0 <= i < j < |s| ==> s[i] < s[j]
  }

  ghost predicate NoDuplicates(s: seq<int>)
  {
    forall x :: multiset(s)[x] <= 1
  }

  /** `x` inserted into an ascending sequence at its place. */
  function InsertAscending(x: int, s: seq<int>): (r: seq<int>)
    requires Ascending(s)
    ensures Ascending(r)
    ensures multiset(r) == multiset(s) + multiset{x}
    ensures |r| == |s| + 1 && (r[0] == x || (s != [] && r[0] == s[0]))
  {
    if s == [] || x <= s[0] then [x] + s
    else
      assert s == [s[0]] + s[1..];
      [s[0]] + InsertAscending(x, s[1..])
  }

  /** `slices.SortFunc` with `Time.Compare`: the same days in ascending order. */
  method SortAscending(xs: seq<int>) returns (ys: seq<int>)
    ensures Ascending(ys)
    ensures multiset(ys) == multiset(xs)
  {
    ys := [];
    for i := 0 to |xs|
      invariant Ascending(ys)
      invariant multiset(ys) == multiset(xs[..i])
    {
      assert xs[..i + 1] == xs[..i] + [xs[i]];
      ys := InsertAscending(xs[i], ys);
    }
    assert xs[..|xs|] == xs;
  }

  /** Two equal elements at different places occur at least twice. */
  lemma EqualElementsCountTwice(s: seq<int>, i: int, j: int)
    requires 0 <= i < j < |s|
    ensures s[i] == s[j] ==> multiset(s)[s[i]] >= 2
  {
    assert s == s[..i] + [s[i]] + s[i + 1..j] + [s[j]] + s[j + 1..];
  }

  /** A sorted sequence without repeated elements is strictly sorted. */
  lemma AscendingWithoutDuplicates(s: seq<int>)
    requires Ascending(s) && NoDuplicates(s)
    ensures StrictlyAscending(s)
  {
    forall i, j | 0 <= i < j < |s|
      ensures s[i] < s[j]
    {
      EqualElementsCountTwice(s, i, j);
    }
  }

  /** `show` gives back every string that `parse` accepts. */
  ghost predicate ShowsParsed(parse: string -> Option<int>, show: int -> string)
  {
    forall k :: parse(k).Some? ==> show(parse(k).value) == k
  }

  /** `parse` reads back every day from its shown form, when it accepts that form. */
  ghost predicate ParsesShown(parse: string -> Option<int>, show: int -> string)
  {
    forall d :: parse(show(d)).Some? ==> parse(show(d)).value == d
  }

  /** The identity of a day and `time.Parse` invert each other. */
  lemma IdentityRoundTrips()
    ensures ShowsParsed(DateOnly.Parse, Identity)
    ensures ParsesShown(DateOnly.Parse, Identity)
  {
    forall k | DateOnly.Parse(k).Some?
      ensures Identity(DateOnly.Parse(k).value) == k
    {
      DateOnly.FormatParse(k);
    }
    forall d | DateOnly.Parse(Identity(d)).Some?
      ensures DateOnly.Parse(Identity(d)).value == d
    {
      DateOnly.ParseFormat(d);
    }
  }

  /** `dates` holds, without repeats, exactly the days that the keys in `done` parse to. */
  ghost predicate Collected(done: set<string>, dates: seq<int>, parse: string -> Option<int>, show: int -> string)
  {
    && |dates| == |done|
    && (forall k :: k in done ==> parse(k).Some? && parse(k).value in dates)
    && (forall i :: 0 <= i < |dates| ==> show(dates[i]) in done)
    && NoDuplicates(dates)
  }

  /** Appending the day of one more key that parses keeps the collection exact. */
  lemma CollectOne(done: set<string>, dates: seq<int>, k: string, parse: string -> Option<int>, show: int -> string)
    requires Collected(done, dates, parse, show) && ShowsParsed(parse, show)
    requires k !in done && parse(k).Some?
    ensures Collected(done + {k}, dates + [parse(k).value], parse, show)
  {
    var d := parse(k).value;
    forall i | 0 <= i < |dates|
      ensures dates[i] != d
    {
      assert show(dates[i]) in done;
    }
    assert multiset(dates + [d]) == multiset(dates) + multiset{d};
  }

  /** Sorting a complete collection gives one strictly ascending entry per key. */
  lemma SortedCollection(keys: set<string>, dates: seq<int>, sorted: seq<int>, parse: string -> Option<int>, show: int -> string)
    requires Collected(keys, dates, parse, show) && ParsesShown(parse, show)
    requires Ascending(sorted) && multiset(sorted) == multiset(dates)
    ensures StrictlyAscending(sorted) && |sorted| == |keys|
    ensures forall d :: d in sorted <==> show(d) in keys
  {
    AscendingWithoutDuplicates(sorted);
    assert |sorted| == |multiset(sorted)| == |multiset(dates)| == |dates|;
    forall d
      ensures d in sorted <==> show(d) in keys
    {
      assert d in sorted <==> d in multiset(dates);
    }
  }

  /**
   * The loop of `GetSelected`: parse every key; the first key (in the map's
   * unspecified order) that does not parse is the error, otherwise the
   * parsed days, one per key.
   */
  method ParseAll(keys: set<string>, parse: string -> Option<int>, show: int -> string) returns (r: Result<seq<int>, string>)
    requires ShowsParsed(parse, show)
    ensures r.Failure? <==> exists k :: k in keys && parse(k).None?
    ensures r.Failure? ==> r.error in keys && parse(r.error).None?
    ensures r.Success? ==> Collected(keys, r.value, parse, show)
  {
    var dates: seq<int> := [];
    var done: set<string> := {};
    var rest := keys;
    while rest != {}
      invariant done + rest == keys && done !! rest
      invariant Collected(done, dates, parse, show)
      decreases rest
    {
      var k :| k in rest;
      var parsed := parse(k);
      if parsed.None? {
        return Failure(k);
      }
      CollectOne(done, dates, k, parse, show);
      dates := dates + [parsed.value];
      done, rest := done + {k}, rest - {k};
    }
    r := Success(dates);
  }

  /**
   * The selected days in ascending order, one per stored identity; or the
   * first identity (in the map's unspecified order) that does not parse.
   */
  method GetSelected(m: Model) returns (r: Result<seq<int>, string>)
    ensures r.Failure? <==> exists k :: k in m.selected.keys && DateOnly.Parse(k).None?
    ensures r.Failure? ==> r.error in m.selected.keys && DateOnly.Parse(r.error).None?
    ensures r.Success? ==> StrictlyAscending(r.value) && |r.value| == |m.selected.keys|
    ensures r.Success? ==> forall d :: d in r.value <==> Identity(d) in m.selected.keys
  {
    IdentityRoundTrips();
    var keys := m.selected.keys;
    r := ParseAll(keys, DateOnly.Parse, Identity);
    if r.Success? {
      var sorted := SortAscending(r.value);
      SortedCollection(keys, r.value, sorted, DateOnly.Parse, Identity);
      r := Success(sorted);
    }
  }

  // ------------------------------------------------------------ sessions

  /**
   * A whole session as the program drives it: build the picker, run the
   * events on it, then read the selection from the ORIGINAL value, which
   * sees every change because the selection is shared.
   */
  method Session(now: int, events: seq<Event>) returns (r: Result<seq<int>, string>)
    ensures r.Failure? <==> exists k :: k in Run(Initial(now), events, now).0.selected && DateOnly.Parse(k).None?
    ensures r.Failure? ==> r.error in Run(Initial(now), events, now).0.selected && DateOnly.Parse(r.error).None?
    ensures r.Success? ==> StrictlyAscending(r.value) && |r.value| == |Run(Initial(now), events, now).0.selected|
    ensures r.Success? ==> forall d :: d in r.value <==> Identity(d) in Run(Initial(now), events, now).0.selected
  {
    var m := New(now);
    var final, cmd := RunSession(m, events, now);
    r := GetSelected(m);
  }
}
