/** The scrolling title of a button and the thread that ticks it, MediaStreamDeckPlugin.cpp. */
module ScrollingTitle {
  import opened Options

  function Spaces(n: nat): string {
    seq(n, _ => ' ')
  }

  /** std::wstring::substr, which stops at the end of the string. */
  function Substr(s: string, pos: nat, n: nat): string
    requires pos <= |s|
  {
    if pos + n <= |s| then s[pos..pos + n] else s[pos..]
  }

  function Padded(title: string, width: nat): string {
    Spaces(width) + title + Spaces(width)
  }

  /** The place in the padded title at which a tick draws. */
  function Offset(tick: nat, length: nat, width: nat): nat {
    if tick > length + width then 0 else tick
  }

  /** HandleButton returns the next tick, having drawn a text or not, or an exception leaves it. */
  datatype Outcome = Returned(tick: nat, drawn: Option<string>) | Threw

  /** Padding with a negative width asks for more characters than a string can hold. */
  function Handled(tick: nat, connected: bool, title: string, width: int): Outcome {
    if !connected || width == 0 then Returned(0, None)
    else if title == "" then Returned(tick + 1, Some(""))
    else if width < 0 then Threw
    else
      var offset := Offset(tick, |title|, width);
      Returned(offset + 1, Some(Padded(title, width)[offset..offset + width]))
  }

  method HandleButton(atTick: nat, connected: bool, title: string, width: int) returns (outcome: Outcome)
    ensures outcome == Handled(atTick, connected, title, width)
  {
    var tick := atTick;
    if connected && width != 0 {
      var text := "";
      var wtitle := title;
      if |wtitle| > 0 {
        if width < 0 {
          return Threw;
        }
        wtitle := Spaces(width) + wtitle;
        wtitle := wtitle + Spaces(width);
        if tick > |wtitle| - width {
          tick := 0;
        }
        text := Substr(wtitle, tick, width);
      }
      return Returned(tick + 1, Some(text));
    }
    return Returned(0, None);
  }

  /**
   * Whatever the tick, a title is drawn as exactly one window of the padded title: column by column
   * it shows the title moved left by the offset, and spaces around it.
   */
  lemma DrawIsWindow(tick: nat, title: string, width: nat)
    requires width > 0 && title != ""
    ensures var offset := Offset(tick, |title|, width);
            var drawn := Handled(tick, true, title, width).drawn;
            && offset + width <= |Padded(title, width)|
            && drawn.Some? && |drawn.value| == width
            && forall column :: 0 <= column < width ==>
                 drawn.value[column] == if width <= offset + column < width + |title|
                                        then title[offset + column - width] else ' '
  {
  }

  // ----- The thread and its environment -----

  /**
   * Where the thread is in its loop: each phase is one access to the state it shares.  An exception
   * ends the thread, and the process with it.
   */
  datatype Phase = Checking | Calling | Drawing(width: int) | Clearing | Failed

  datatype State = State(phase: Phase, tick: nat, refresh: bool, width: int, connected: bool, title: string)

  const START := State(Checking, 0, false, 0, false, "")

  datatype Event = Work | SetRefresh(on: bool) | SetTextWidth(newWidth: int) | SetTitle(newTitle: string) | Connect

  function Worked(s: State): (State, Option<string>) {
    match s.phase
    case Checking => (s.(phase := Calling, tick := if s.refresh then 0 else s.tick), None)
    case Calling => (s.(phase := Drawing(s.width)), None)
    case Drawing(width) =>
      (match Handled(s.tick, s.connected, s.title, width)
       case Returned(next, drawn) => (s.(phase := Clearing, tick := next), drawn)
       case Threw => (s.(phase := Failed), None))
    case Clearing => (s.(phase := Checking, refresh := if s.tick > 0 then false else s.refresh), None)
    case Failed => (s, None)
  }

  function Step(s: State, e: Event): (State, Option<string>) {
    match e
    case Work => Worked(s)
    case SetRefresh(on) => (s.(refresh := on), None)
    case SetTextWidth(width) => (s.(width := width), None)
    case SetTitle(title) => (s.(title := title), None)
    case Connect => (s.(connected := true), None)
  }

  /** In every state a run can reach, whatever changed meanwhile, a text is drawn only as a window of the title. */
  lemma EveryDrawIsWindow(s: State, e: Event)
    requires Step(s, e).1.Some? && Step(s, e).1.value != ""
    ensures e == Work && s.phase.Drawing? && s.title != "" && s.phase.width > 0
    ensures var (width, text) := (s.phase.width, Step(s, e).1.value);
            var offset := Offset(s.tick, |s.title|, width);
            && offset + width <= |Padded(s.title, width)| && |text| == width
            && forall column :: 0 <= column < width ==>
                 text[column] == if width <= offset + column < width + |s.title|
                                 then s.title[offset + column - width] else ' '
  {
    DrawIsWindow(s.tick, s.title, s.phase.width);
  }

  /** A whole turn of the loop in which nothing else happens. */
  function Turn(s: State): (State, Option<string>)
    requires s.phase in {Checking, Failed}
    ensures Turn(s).0.phase in {Checking, Failed}
  {
    var called := Worked(Worked(s).0).0;
    (Worked(Worked(called).0).0, Worked(called).1)
  }

  /** ButtonHandler; the title and the connection belong to the plugin. */
  class ButtonHandler {
    var textWidth: int
    var currentTick: nat
    var doRefresh: bool

    constructor ()
      ensures textWidth == 0 && currentTick == 0 && !doRefresh
      ensures AsState(false, "") == START
    {
      textWidth, currentTick, doRefresh := 0, 0, false;
    }

    ghost function AsState(connected: bool, title: string): State
      reads this
    {
      State(Checking, currentTick, doRefresh, textWidth, connected, title)
    }

    /** Returns false where an exception leaves the loop. */
    method LoopBody(connected: bool, title: string) returns (ok: bool, drawn: Option<string>)
      modifies this
      ensures var s := AsState(connected, title);
              (if ok then s else s.(phase := Failed), drawn) == Turn(old(AsState(connected, title)))
    {
      hide Handled;
      if doRefresh {
        currentTick := 0;
      }
      var outcome := HandleButton(currentTick, connected, title, textWidth);
      if outcome.Threw? {
        return false, None;
      }
      currentTick, drawn := outcome.tick, outcome.drawn;
      if currentTick > 0 {
        doRefresh := false;
      }
      ok := true;
    }
  }

  /** A turn ends the thread exactly when a title is to be drawn at a negative width. */
  lemma FailsIff(s: State)
    requires s.phase == Checking
    ensures Turn(s).0.phase == Failed <==> s.connected && s.title != "" && s.width < 0
  {
  }

  /** Without a title the button is cleared, which is a drawing, so that the refresh is done; the tick runs on. */
  lemma TurnClears(s: State)
    requires s.phase == Checking && s.connected && s.title == "" && s.width != 0
    ensures Turn(s) == (s.(tick := (if s.refresh then 0 else s.tick) + 1, refresh := false), Some(""))
  {
  }

  /** Without a connection or a width nothing is drawn, the scroll starts over, and a refresh stays set. */
  lemma TurnIdles(s: State)
    requires s.phase == Checking && (!s.connected || s.width == 0)
    ensures Turn(s) == (s.(tick := 0), None)
  {
  }

  // ----- Refreshing -----

  /** The state in which the first text of a run is drawn, or the last one if none is. */
  function UntilDraw(s: State, events: seq<Event>): State
    decreases |events|
  {
    if events == [] || Step(s, events[0]).1.Some? then s else UntilDraw(Step(s, events[0]).0, events[1..])
  }

  /** A refresh is pending: it is set, and the thread will draw at tick 0. */
  predicate Pending(s: State) {
    s.refresh && (s.phase != Checking ==> s.tick == 0)
  }

  /**
   * Over every run in which nobody else takes a pending refresh back, it stays pending until
   * something is drawn, which therefore starts from the beginning.
   */
  lemma {:induction false} PendingUntilDrawn(s: State, events: seq<Event>)
    requires Pending(s) && SetRefresh(false) !in events
    ensures Pending(UntilDraw(s, events))
    decreases |events|
  {
    if events != [] && Step(s, events[0]).1.None? {
      assert forall e :: e in events[1..] ==> e in events;
      PendingUntilDrawn(Step(s, events[0]).0, events[1..]);
    }
  }

  /** The thread draws a title whenever it gets there. */
  predicate Showing(s: State) {
    && s.connected && s.title != "" && s.width > 0
    && s.phase != Failed && (s.phase.Drawing? ==> s.phase.width > 0)
  }

  /** Before its check the thread shows a title exactly when the turn draws a text that is not empty. */
  lemma ShowingIff(s: State)
    requires s.phase == Checking
    ensures Showing(s) <==> Turn(s).1.Some? && Turn(s).1.value != ""
  {
    if s.connected && s.title != "" && s.width > 0 {
      DrawIsWindow(if s.refresh then 0 else s.tick, s.title, s.width);
    }
  }

  /** The state in which the thread draws next if nothing else happens. */
  function NextDraw(s: State): (t: State)
    requires Showing(s)
    ensures t.phase.Drawing?
  {
    match s.phase
    case Checking => Worked(Worked(s).0).0
    case Calling => Worked(s).0
    case Drawing(_) => s
    case Clearing => Worked(Worked(Worked(s).0).0).0
  }

  function NextOffset(s: State): nat
    requires Showing(s)
  {
    Offset(NextDraw(s).tick, |s.title|, NextDraw(s).phase.width)
  }

  /**
   * A refresh restarts the very next drawing exactly when the thread is about to check for it or
   * that drawing starts over anyway; in either case the thread then takes it as done, so one that
   * arrives later in the loop is lost.
   */
  lemma RefreshRestartsIff(s: State)
    requires Showing(s) && s.refresh
    ensures var width := if s.phase.Drawing? then s.phase.width else s.width;
            NextOffset(s) == 0 <==> s.phase == Checking || s.tick == 0 || s.tick > |s.title| + width
    ensures !Worked(Worked(NextDraw(s)).0).0.refresh
  {
  }

  /** The state after the first i events of a run. */
  function After(s: State, events: seq<Event>, i: nat): State
    requires i <= |events|
  {
    if i == 0 then s else Step(After(s, events, i - 1), events[i - 1]).0
  }

  /** A refresh that arrives between the drawing of the second frame and its clearing: the scroll goes on without it. */
  lemma RefreshLostExample()
    ensures var events := [Connect, SetTextWidth(3), SetTitle("Song"), Work, Work, Work, Work, Work, Work, Work,
                           SetRefresh(true)];
            var s := After(START, events, |events|);
            && Showing(s) && s.refresh && NextOffset(s) == 2
            && !NextDraw(s).refresh && Worked(NextDraw(s)).1 == Some(" So")
  {
    var events := [Connect, SetTextWidth(3), SetTitle("Song"), Work, Work, Work, Work, Work, Work, Work,
                   SetRefresh(true)];
    var shown := State(Checking, 0, false, 3, true, "Song");
    assert After(START, events, 2) == shown.(title := "");
    assert After(START, events, 3) == shown;
    assert After(START, events, 5) == shown.(phase := Drawing(3));
    assert After(START, events, 7) == shown.(tick := 1);
    assert After(START, events, 9) == shown.(phase := Drawing(3), tick := 1);
    assert After(START, events, 11) == shown.(phase := Clearing, tick := 2, refresh := true);
    assert Padded("Song", 3)[2..5] == " So";
  }

  // ----- One scroll -----

  /** The state after k undisturbed turns. */
  function Nth(s: State, k: nat): (t: State)
    requires s.phase in {Checking, Failed}
    ensures t.phase in {Checking, Failed}
  {
    if k == 0 then s else Turn(Nth(s, k - 1)).0
  }

  function Period(s: State): nat
    requires s.width >= 0
  {
    |s.title| + s.width + 1
  }

  predicate AtStart(s: State) {
    s.phase == Checking && Showing(s) && NextOffset(s) == 0
  }

  lemma NextMod(k: nat, period: nat)
    requires period > 0
    ensures (k + 1) % period == if k % period + 1 == period then 0 else k % period + 1
  {
    var q, r := k / period, k % period;
    assert k == q * period + r;
    if r + 1 == period {
      assert k + 1 == (q + 1) * period;
      ModUnique(k + 1, period, q + 1, 0);
    } else {
      ModUnique(k + 1, period, q, r + 1);
    }
  }

  lemma ModUnique(k: nat, period: nat, q: nat, r: nat)
    requires r < period && k == q * period + r
    ensures k % period == r
  {
    var difference := q - k / period;
    assert difference * period == k % period - r;
    MultipleIsFar(difference, period);
  }

  lemma MultipleIsFar(factor: int, period: nat)
    ensures factor > 0 ==> factor * period >= period
    ensures factor < 0 ==> factor * period <= 0 - period
  {
  }

  /** What a turn does to a title that is shown, and when it starts over. */
  lemma TurnMoves(s: State)
    requires s.phase == Checking && Showing(s)
    ensures var offset := NextOffset(s);
            && offset == (if s.refresh || s.tick > |s.title| + s.width then 0 else s.tick)
            && offset + s.width <= |Padded(s.title, s.width)|
            && Turn(s) == (s.(tick := offset + 1, refresh := false),
                           Some(Padded(s.title, s.width)[offset..offset + s.width]))
  {
  }

  /** Undisturbed, the title scrolls with the period of its length and its width and one. */
  lemma {:induction false} ScrollIsCyclic(s: State, k: nat)
    requires AtStart(s)
    ensures var t := Nth(s, k);
            var offset := k % Period(s);
            && t.phase == Checking && Showing(t) && t.title == s.title && t.width == s.width
            && NextOffset(t) == offset && offset + s.width <= |Padded(s.title, s.width)|
            && Turn(t).1 == Some(Padded(s.title, s.width)[offset..offset + s.width])
            && !Turn(t).0.refresh && Turn(t).0.tick == offset + 1
  {
    hide Turn, NextOffset, Padded;
    if k > 0 {
      ScrollIsCyclic(s, k - 1);
      TurnMoves(Nth(s, k - 1));
      NextMod(k - 1, Period(s));
    }
    TurnMoves(Nth(s, k));
  }

  /** Character j of the title, which is behind the leading padding, is in the window at an offset. */
  predicate InWindow(offset: nat, j: nat, width: nat) {
    offset <= width + j < offset + width
  }

  /** The number of the n undisturbed turns from the k-th that show character j. */
  function Shown(s: State, j: nat, k: nat, n: nat): nat
    requires AtStart(s)
  {
    if n == 0 then 0
    else
      ScrollIsCyclic(s, k + n - 1);
      Shown(s, j, k, n - 1) + if InWindow(NextOffset(Nth(s, k + n - 1)), j, s.width) then 1 else 0
  }

  /** The same count, of the offsets the turns have. */
  function InCycle(period: nat, width: nat, j: nat, k: nat, n: nat): nat
    requires period > 0
  {
    if n == 0 then 0
    else InCycle(period, width, j, k, n - 1) + if InWindow((k + n - 1) % period, j, width) then 1 else 0
  }

  lemma {:induction false} ShownInCycle(s: State, j: nat, k: nat, n: nat)
    requires AtStart(s)
    ensures Shown(s, j, k, n) == InCycle(Period(s), s.width, j, k, n)
  {
    hide Nth, NextOffset, InWindow;
    if n > 0 {
      ScrollIsCyclic(s, k + n - 1);
      ShownInCycle(s, j, k, n - 1);
    }
  }

  /** Within the first period a character shows from the turn after its own, for as many turns as the title is wide. */
  lemma {:induction false} InFirstCycle(period: nat, width: nat, j: nat, n: nat)
    requires n <= period
    requires period > 0
    ensures InCycle(period, width, j, 0, n) ==
            if n <= j + 1 then 0 else if n <= j + 1 + width then n - j - 1 else width
  {
    if n > 0 {
      InFirstCycle(period, width, j, n - 1);
      ModUnique(n - 1, period, 0, n - 1);
    }
  }

  /** Starting a count one turn later drops the first turn. */
  lemma {:induction false} InCycleLater(period: nat, width: nat, j: nat, k: nat, n: nat)
    requires period > 0 && n > 0
    ensures InCycle(period, width, j, k, n) ==
            InCycle(period, width, j, k + 1, n - 1) + if InWindow(k % period, j, width) then 1 else 0
  {
    hide InWindow;
    if n > 1 {
      InCycleLater(period, width, j, k, n - 1);
      assert k + n - 1 == (k + 1) + (n - 1) - 1;
    } else {
      assert InCycle(period, width, j, k, 0) == InCycle(period, width, j, k + 1, 0) == 0;
    }
  }

  lemma {:induction false} InAnyCycle(period: nat, width: nat, j: nat, k: nat)
    requires period > 0
    ensures InCycle(period, width, j, k, period) == InCycle(period, width, j, 0, period)
  {
    hide InWindow;
    if k > 0 {
      InAnyCycle(period, width, j, k - 1);
      InCycleLater(period, width, j, k - 1, period);
      SameMod(k - 1, period);
      assert k + period - 1 == (k - 1) + period;
    }
  }

  /** In every cycle, wherever it starts, each character is shown in as many frames as the title is wide. */
  lemma ShownPerCycle(s: State, j: nat, k: nat)
    requires AtStart(s) && j < |s.title|
    ensures Shown(s, j, k, Period(s)) == s.width
  {
    hide Shown, InCycle;
    ShownInCycle(s, j, k, Period(s));
    InAnyCycle(Period(s), s.width, j, k);
    InFirstCycle(Period(s), s.width, j, Period(s));
  }

  lemma SameMod(k: nat, period: nat)
    requires period > 0
    ensures (k + period) % period == k % period
  {
    assert k + period == (k / period + 1) * period + k % period;
    ModUnique(k + period, period, k / period + 1, k % period);
  }
}
