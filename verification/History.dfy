/**
  Browsing and searching the command history (lib/history.ml), over the entries in memory.  Entries are kept oldest
  first, and browsing counts from the newest.
*/
module History {
  import opened Wrappers
  import opened Strings

  datatype Entry = Entry(mode: string, text: string)

  /** The lines are texts in which no line ends. */
  datatype Prompt = Prompt(mode: string, lines: seq<string>)

  function Recalled(e: Entry): Prompt {
    Prompt(e.mode, Split(e.text, '\n'))
  }

  function PromptText(lines: seq<string>): string {
    Join(lines, '\n')
  }

  function NthNewest(history: seq<Entry>, i: nat): Entry
    requires i < |history|
  {
    history[|history| - 1 - i]
  }

  // ------------------------------------------------------------------- the filter

  predicate MatchesPrompt(needle: Option<seq<string>>, text: string) {
    needle.None? || OccursFrom(PromptText(needle.value), text, 0)
  }

  predicate IsDuplicate(history: seq<Entry>, i: nat)
    requires i < |history|
  {
    i > 0 && NthNewest(history, i) == NthNewest(history, i - 1)
  }

  /** The entry is worth showing: it passes the filter and is not the one just shown again. */
  predicate Shows(history: seq<Entry>, needle: Option<seq<string>>, i: nat)
    requires i < |history|
  {
    !IsDuplicate(history, i) && MatchesPrompt(needle, NthNewest(history, i).text)
  }

  /** The nearest entry worth showing, from `i` on. */
  function NextShown(history: seq<Entry>, needle: Option<seq<string>>, i: nat): (r: Option<nat>)
    ensures r.Some? ==> i <= r.value < |history| && Shows(history, needle, r.value)
    ensures forall j :: i <= j < (if r.Some? then r.value else |history|) ==> !Shows(history, needle, j)
    decreases |history| - i
  {
    if i >= |history| then None
    else if Shows(history, needle, i) then Some(i)
    else NextShown(history, needle, i + 1)
  }

  /** The nearest entry worth showing before `i`. */
  function PreviousShown(history: seq<Entry>, needle: Option<seq<string>>, i: nat): (r: Option<nat>)
    requires i <= |history|
    ensures r.Some? ==> r.value < i && Shows(history, needle, r.value)
    ensures forall j :: (if r.Some? then r.value else -1) < j < i ==> !Shows(history, needle, j)
  {
    if i == 0 then None
    else if Shows(history, needle, i - 1) then Some(i - 1)
    else PreviousShown(history, needle, i - 1)
  }

  // ------------------------------------------------------------------- browsing

  /** Entry `index - 1` is on display, the draft when `index` is 0. */
  datatype Nav = Nav(index: nat, saved: Option<Prompt>, needle: Option<seq<string>>)

  datatype Step = Step(nav: Nav, shown: Option<Prompt>)

  predicate DisplaysEntry(history: seq<Entry>, index: nat, lines: seq<string>) {
    0 < index <= |history| && PromptText(lines) == NthNewest(history, index - 1).text
  }

  /** The filter changes when what is on display is not the entry that should be. */
  function UpdateNeedle(history: seq<Entry>, nav: Nav, lines: seq<string>): Nav {
    if DisplaysEntry(history, nav.index, lines) then nav else nav.(needle := Some(lines))
  }

  function NoteDraft(history: seq<Entry>, nav: Nav, current: Prompt): Nav {
    UpdateNeedle(history, if nav.index == 0 then nav.(saved := Some(current)) else nav, current.lines)
  }

  function Back(history: seq<Entry>, nav: Nav, current: Option<Prompt>): Step {
    var nav := if current.Some? then NoteDraft(history, nav, current.value) else nav;
    match NextShown(history, nav.needle, nav.index)
    case Some(i) => Step(nav.(index := i + 1), Some(Recalled(NthNewest(history, i))))
    case None => Step(nav.(index := if nav.index < |history| then |history| else nav.index), None)
  }

  function Forwards(history: seq<Entry>, nav: Nav, current: Option<Prompt>): Step
    requires nav.index <= |history|
  {
    var nav := if current.Some? then UpdateNeedle(history, nav, current.value.lines) else nav;
    if nav.index == 0 then Step(nav, None)
    else
      match PreviousShown(history, nav.needle, nav.index - 1)
      case Some(i) => Step(nav.(index := i + 1), Some(Recalled(NthNewest(history, i))))
      case None => Step(nav.(index := 0), nav.saved)
  }

  lemma BackStep(history: seq<Entry>, nav: Nav)
    requires nav.index < |history|
    ensures Back(history, nav, None) ==
      if Shows(history, nav.needle, nav.index) then Step(nav.(index := nav.index + 1), Some(Recalled(NthNewest(history, nav.index))))
      else Back(history, nav.(index := nav.index + 1), None)
  {
  }

  lemma BackNotes(history: seq<Entry>, nav: Nav, current: Option<Prompt>)
    ensures Back(history, nav, current) == Back(history, if current.Some? then NoteDraft(history, nav, current.value) else nav, None)
  {
  }

  lemma BackSkips(history: seq<Entry>, nav: Nav)
    requires nav.index < |history| && !Shows(history, nav.needle, nav.index)
    ensures Back(history, nav, None) == Back(history, nav.(index := nav.index + 1), None)
  {
    BackStep(history, nav);
  }

  lemma ForwardsStep(history: seq<Entry>, nav: Nav)
    requires 0 < nav.index <= |history|
    ensures Forwards(history, nav, None) ==
      if nav.index == 1 then Step(nav.(index := 0), nav.saved)
      else if Shows(history, nav.needle, nav.index - 2) then Step(nav.(index := nav.index - 1), Some(Recalled(NthNewest(history, nav.index - 2))))
      else Forwards(history, nav.(index := nav.index - 1), None)
  {
  }

  /** Nothing but what `String.trim` removes. */
  predicate Blank(s: string) {
    forall i :: 0 <= i < |s| ==> s[i] in {' ', '\t', '\n', '\r', '\U{000C}'}
  }

  class History {
    var history: seq<Entry>
    var currentIndex: int
    var savedPrompt: Option<Prompt>
    var searchNeedle: Option<seq<string>>

    predicate Valid()
      reads this
    {
      0 <= currentIndex <= |history|
    }

    function Now(): Nav
      reads this
      requires Valid()
    {
      Nav(currentIndex, savedPrompt, searchNeedle)
    }

    constructor (entries: seq<Entry>)
      ensures Valid() && history == entries && Now() == Nav(0, None, None)
    {
      history, currentIndex, savedPrompt, searchNeedle := entries, 0, None, None;
    }

    method UpdateSearchNeedle(lines: seq<string>)
      requires Valid()
      modifies this`searchNeedle
      ensures Valid() && Now() == UpdateNeedle(history, old(Now()), lines)
    {
      if !DisplaysEntry(history, currentIndex, lines) {
        searchNeedle := Some(lines);
      }
    }

    /** The draft is kept, and may become the filter. */
    method NotePrompt(current: Prompt)
      requires Valid()
      modifies this`savedPrompt, this`searchNeedle
      ensures Valid() && Now() == NoteDraft(history, old(Now()), current)
    {
      if currentIndex == 0 {
        savedPrompt := Some(current);
      }
      UpdateSearchNeedle(current.lines);
    }

    method GoBack(currentPrompt: Option<Prompt>) returns (shown: Option<Prompt>)
      requires Valid()
      modifies this`currentIndex, this`savedPrompt, this`searchNeedle
      ensures Valid() && Step(Now(), shown) == Back(history, old(Now()), currentPrompt)
      decreases |history| - currentIndex
    {
      BackNotes(history, Now(), currentPrompt);
      if currentPrompt.Some? {
        NotePrompt(currentPrompt.value);
      }
      var idx := currentIndex;
      if idx >= |history| {
        return None;
      }
      ghost var nav := Now();
      currentIndex := idx + 1;
      if IsDuplicate(history, idx) {
        BackSkips(history, nav);
        shown := GoBack(None);
      } else {
        var entry := NthNewest(history, idx);
        if MatchesPrompt(searchNeedle, entry.text) {
          BackStep(history, nav);
          shown := Some(Recalled(entry));
        } else {
          BackSkips(history, nav);
          shown := GoBack(None);
        }
      }
    }

    method GoForwards(currentPrompt: Option<Prompt>) returns (shown: Option<Prompt>)
      requires Valid()
      modifies this`currentIndex, this`searchNeedle
      ensures Valid() && Step(Now(), shown) == Forwards(history, old(Now()), currentPrompt)
      decreases currentIndex
    {
      if currentPrompt.Some? {
        UpdateSearchNeedle(currentPrompt.value.lines);
      }
      assert Forwards(history, old(Now()), currentPrompt) == Forwards(history, Now(), None);
      if currentIndex <= 0 {
        return None;
      }
      ForwardsStep(history, Now());
      currentIndex := currentIndex - 1;
      if currentIndex == 0 {
        return savedPrompt;
      }
      var idx := currentIndex - 1;
      if IsDuplicate(history, idx) {
        shown := GoForwards(None);
      } else {
        var entry := NthNewest(history, idx);
        if MatchesPrompt(searchNeedle, entry.text) {
          shown := Some(Recalled(entry));
        } else {
          shown := GoForwards(None);
        }
      }
    }

    /** A command was submitted (the part of `add_to_history` that is in memory). */
    method Add(mode: string, lines: seq<string>)
      requires Valid()
      modifies this
      ensures Valid()
      ensures Blank(PromptText(lines)) ==> history == old(history) && Now() == old(Now())
      ensures !Blank(PromptText(lines)) ==>
        history == old(history) + [Entry(mode, PromptText(lines))] && Now() == Nav(0, None, None)
    {
      var command := PromptText(lines);
      if Blank(command) {
        return;
      }
      currentIndex, savedPrompt, searchNeedle := 0, None, None;
      history := history + [Entry(mode, command)];
    }

    method SearchMatches(needle: string, limit: int) returns (found: seq<Entry>)
      ensures
        var all := DistinctMatches(history, Lowercase(needle), |history|);
        found == if limit <= 0 then [] else if |all| <= limit then all else all[..limit]
    {
      var needle' := Lowercase(needle);
      var seen: set<Entry> := {};
      found := [];
      var i := 0;
      while |found| < limit && i < |history|
        invariant 0 <= i <= |history|
        invariant found == DistinctMatches(history, needle', i)
        invariant seen == set e | e in found
        invariant |found| <= limit || (limit <= 0 && found == [])
      {
        var key := NthNewest(history, i);
        if key !in seen && OccursFrom(needle', Lowercase(key.text), 0) {
          seen := seen + {key};
          found := found + [key];
        }
        i := i + 1;
      }
      DistinctMatchesGrow(history, needle', i, |history|);
      assert found == DistinctMatches(history, needle', |history|)[..|found|];
    }
  }

  // ----------------------------------------------------------- forwards undoes back

  /** What is on display is what the position says. */
  ghost predicate Settled(history: seq<Entry>, nav: Nav, shown: Prompt) {
    && nav.index <= |history|
    && (nav.index > 0 ==> Shows(history, nav.needle, nav.index - 1) && shown == Recalled(NthNewest(history, nav.index - 1)))
  }

  lemma NothingToNote(history: seq<Entry>, nav: Nav, shown: Prompt)
    requires Settled(history, nav, shown) && nav.index > 0
    ensures NoteDraft(history, nav, shown) == UpdateNeedle(history, nav, shown.lines) == nav
  {
    JoinSplit(NthNewest(history, nav.index - 1).text, '\n');
  }

  /** Going back shows the nearest older entry that passes the filter and is not a duplicate of the next newer
      one; from the draft, the filter is the draft.  It fails exactly when there is none. */
  lemma BackShowsNearest(history: seq<Entry>, nav: Nav, shown: Prompt)
    requires Settled(history, nav, shown)
    ensures
      var needle := if nav.index == 0 then Some(shown.lines) else nav.needle;
      var b := Back(history, nav, Some(shown));
      && b.nav.needle == needle
      && b.nav.saved == (if nav.index == 0 then Some(shown) else nav.saved)
      && (b.shown.Some? <==> exists i :: nav.index <= i < |history| && Shows(history, needle, i))
      && (b.shown.Some? ==>
            && Settled(history, b.nav, b.shown.value) && nav.index < b.nav.index
            && forall i :: nav.index <= i < b.nav.index - 1 ==> !Shows(history, needle, i))
  {
    if nav.index > 0 {
      NothingToNote(history, nav, shown);
    }
  }

  /** The text holds the filter's text somewhere, and the entry is not the same as the next newer one. */
  ghost predicate IsWorthShowing(history: seq<Entry>, filter: Option<string>, i: nat)
    requires i < |history|
  {
    var n := |history|;
    && (i > 0 ==> history[n - 1 - i] != history[n - i])
    && (filter.Some? ==> Holds(history[n - 1 - i].text, filter.value))
  }

  ghost predicate Holds(text: string, part: string) {
    exists j: nat :: OccursAt(part, text, j)
  }

  function FilterText(needle: Option<seq<string>>): Option<string> {
    if needle.None? then None else Some(Join(needle.value, '\n'))
  }

  lemma WorthShowingIff(history: seq<Entry>, needle: Option<seq<string>>, i: nat)
    requires i < |history|
    ensures Shows(history, needle, i) <==> IsWorthShowing(history, FilterText(needle), i)
  {
    if needle.Some? {
      OccursFromIff(PromptText(needle.value), NthNewest(history, i).text, 0);
    }
  }

  /** What going back shows: the lines of the nearest older entry worth showing, in its mode; from the draft, the filter is
      the draft's text. */
  lemma BackShowsEntry(history: seq<Entry>, nav: Nav, shown: Prompt)
    requires Settled(history, nav, shown)
    ensures
      var filter := if nav.index == 0 then Some(Join(shown.lines, '\n')) else FilterText(nav.needle);
      match Back(history, nav, Some(shown)).shown
      case None => forall i :: nav.index <= i < |history| ==> !IsWorthShowing(history, filter, i)
      case Some(p) => exists i ::
        && nav.index <= i < |history| && IsWorthShowing(history, filter, i)
        && (forall j :: nav.index <= j < i ==> !IsWorthShowing(history, filter, j))
        && p.mode == history[|history| - 1 - i].mode && Join(p.lines, '\n') == history[|history| - 1 - i].text
        && p.lines != [] && forall k :: 0 <= k < |p.lines| ==> '\n' !in p.lines[k]
  {
    var needle := if nav.index == 0 then Some(shown.lines) else nav.needle;
    var b := Back(history, nav, Some(shown));
    BackShowsNearest(history, nav, shown);
    forall i | 0 <= i < |history|
      ensures Shows(history, needle, i) <==> IsWorthShowing(history, FilterText(needle), i)
    {
      WorthShowingIff(history, needle, i);
    }
    if b.shown.Some? {
      var i := b.nav.index - 1;
      JoinSplit(NthNewest(history, i).text, '\n');
      assert IsWorthShowing(history, FilterText(needle), i);
    }
  }

  /** Going forwards from where going back led shows what was there before, draft included. */
  lemma ForwardsUndoesBack(history: seq<Entry>, nav: Nav, shown: Prompt)
    requires Settled(history, nav, shown) && Back(history, nav, Some(shown)).shown.Some?
    ensures
      var b := Back(history, nav, Some(shown));
      && b.nav.index <= |history|
      && Forwards(history, b.nav, b.shown) == Step(NoteDraft(history, nav, shown), Some(shown))
  {
    var b := Back(history, nav, Some(shown));
    BackShowsNearest(history, nav, shown);
    NothingToNote(history, b.nav, b.shown.value);
    if nav.index > 0 {
      NothingToNote(history, nav, shown);
    }
  }

  datatype Trip = Trip(nav: Nav, shown: Prompt, seen: seq<Prompt>)

  /** Going back `n` times, each time with what is on display; `None` if that fails on the way. */
  function Backs(history: seq<Entry>, nav: Nav, shown: Prompt, n: nat): Option<Trip> {
    if n == 0 then Some(Trip(nav, shown, []))
    else
      match Backs(history, nav, shown, n - 1)
      case None => None
      case Some(t) =>
        var b := Back(history, t.nav, Some(t.shown));
        if b.shown.None? then None else Some(Trip(b.nav, b.shown.value, t.seen + [b.shown.value]))
  }

  function ForwardsTimes(history: seq<Entry>, nav: Nav, shown: Prompt, n: nat): Option<Trip>
    decreases n
  {
    if n == 0 then Some(Trip(nav, shown, []))
    else if nav.index > |history| then None
    else
      var f := Forwards(history, nav, Some(shown));
      if f.shown.None? then None
      else
        match ForwardsTimes(history, f.nav, f.shown.value, n - 1)
        case None => None
        case Some(t) => Some(Trip(t.nav, t.shown, [f.shown.value] + t.seen))
  }

  function Reversed(prompts: seq<Prompt>): seq<Prompt> {
    if prompts == [] then [] else [prompts[|prompts| - 1]] + Reversed(prompts[..|prompts| - 1])
  }

  lemma ReversedSnoc(prompts: seq<Prompt>, next: Prompt, n: nat)
    requires 0 < n == |prompts|
    ensures Reversed((prompts + [next])[..n]) == [prompts[n - 1]] + Reversed(prompts[..n - 1])
  {
    assert (prompts + [next])[..n] == prompts;
  }

  lemma {:induction false} BacksSettle(history: seq<Entry>, nav: Nav, shown: Prompt, n: nat)
    requires Settled(history, nav, shown) && Backs(history, nav, shown, n).Some?
    ensures
      var t := Backs(history, nav, shown, n).value;
      && Settled(history, t.nav, t.shown) && (n > 0 ==> t.nav.index > 0) && |t.seen| == n
      && t.shown == ([shown] + t.seen)[n]
  {
    if n > 0 {
      BacksSettle(history, nav, shown, n - 1);
      var t := Backs(history, nav, shown, n - 1).value;
      BackShowsNearest(history, t.nav, t.shown);
    }
  }

  /** As many steps forwards as the trip had lead back to where it began. */
  ghost predicate Returns(history: seq<Entry>, nav: Nav, shown: Prompt, t: Trip, n: nat) {
    var u := ForwardsTimes(history, t.nav, t.shown, n);
    && u.Some? && u.value.shown == shown && u.value.nav.index == nav.index
    && n <= |t.seen| + 1 && u.value.seen == Reversed(([shown] + t.seen)[..n])
  }

  lemma {:induction false} OneMoreReturn(history: seq<Entry>, nav: Nav, shown: Prompt, s: Trip, t: Trip, n: nat)
    requires n == |s.seen| + 1 && t.seen == s.seen + [t.shown] && s.shown == ([shown] + s.seen)[n - 1]
    requires t.nav.index <= |history| && Forwards(history, t.nav, Some(t.shown)) == Step(NoteDraft(history, s.nav, s.shown), Some(s.shown))
    requires if n == 1 then s.nav == nav else NoteDraft(history, s.nav, s.shown) == s.nav && Returns(history, nav, shown, s, n - 1)
    ensures Returns(history, nav, shown, t, n)
  {
    OneMoreForwards(history, shown, s, t, NoteDraft(history, s.nav, s.shown), n);
  }

  lemma {:induction false} BacksReturn(history: seq<Entry>, nav: Nav, shown: Prompt, n: nat)
    requires Settled(history, nav, shown) && Backs(history, nav, shown, n).Some?
    ensures Returns(history, nav, shown, Backs(history, nav, shown, n).value, n)
  {
    if n > 0 {
      BacksStep(history, nav, shown, n);
      var s, t := Backs(history, nav, shown, n - 1).value, Backs(history, nav, shown, n).value;
      if n > 1 {
        BacksReturn(history, nav, shown, n - 1);
        NothingToNote(history, s.nav, s.shown);
      }
      OneMoreReturn(history, nav, shown, s, t, n);
    }
  }

  /** After `n` steps back, `n` steps forwards show the same in reverse order and end where it began, with the draft. */
  lemma {:induction false} BackAndForth(history: seq<Entry>, nav: Nav, shown: Prompt, n: nat)
    requires Settled(history, nav, shown) && Backs(history, nav, shown, n).Some?
    ensures
      var t := Backs(history, nav, shown, n).value;
      var u := ForwardsTimes(history, t.nav, t.shown, n);
      && u.Some? && u.value.shown == shown && u.value.nav.index == nav.index
      && |t.seen| == n && u.value.seen == Reversed(([shown] + t.seen)[..n])
  {
    BacksSettle(history, nav, shown, n);
    BacksReturn(history, nav, shown, n);
  }

  lemma {:induction false} OneMoreForwards(history: seq<Entry>, shown: Prompt, s: Trip, t: Trip, nav: Nav, n: nat)
    requires n == |s.seen| + 1 && t.seen == s.seen + [t.shown] && s.shown == ([shown] + s.seen)[n - 1]
    requires t.nav.index <= |history| && Forwards(history, t.nav, Some(t.shown)) == Step(nav, Some(s.shown))
    requires ForwardsTimes(history, nav, s.shown, n - 1).Some?
    requires ForwardsTimes(history, nav, s.shown, n - 1).value.seen == Reversed(([shown] + s.seen)[..n - 1])
    ensures
      var u, v := ForwardsTimes(history, nav, s.shown, n - 1).value, ForwardsTimes(history, t.nav, t.shown, n);
      v == Some(Trip(u.nav, u.shown, Reversed(([shown] + t.seen)[..n])))
  {
    ForwardsFirst(history, t.nav, t.shown, nav, s.shown, n);
    ReversedSnoc([shown] + s.seen, t.shown, n);
    assert [shown] + t.seen == [shown] + s.seen + [t.shown];
  }

  lemma BacksStep(history: seq<Entry>, nav: Nav, shown: Prompt, n: nat)
    requires n > 0 && Settled(history, nav, shown) && Backs(history, nav, shown, n).Some?
    ensures
      && Backs(history, nav, shown, n - 1).Some?
      && var s, t := Backs(history, nav, shown, n - 1).value, Backs(history, nav, shown, n).value;
      && |s.seen| == n - 1 && s.shown == ([shown] + s.seen)[n - 1] && (n > 1 ==> Settled(history, s.nav, s.shown) && s.nav.index > 0)
      && t.seen == s.seen + [t.shown]
      && t.nav.index <= |history|
      && Forwards(history, t.nav, Some(t.shown)) == Step(NoteDraft(history, s.nav, s.shown), Some(s.shown))
  {
    BacksSettle(history, nav, shown, n - 1);
    var s := Backs(history, nav, shown, n - 1).value;
    ForwardsUndoesBack(history, s.nav, s.shown);
  }

  lemma ForwardsFirst(history: seq<Entry>, nav: Nav, shown: Prompt, nav': Nav, shown': Prompt, n: nat)
    requires n > 0 && nav.index <= |history| && Forwards(history, nav, Some(shown)) == Step(nav', Some(shown'))
    requires ForwardsTimes(history, nav', shown', n - 1).Some?
    ensures
      var rest := ForwardsTimes(history, nav', shown', n - 1).value;
      ForwardsTimes(history, nav, shown, n) == Some(Trip(rest.nav, rest.shown, [shown'] + rest.seen))
  {
  }

  function CountShown(history: seq<Entry>, needle: Option<seq<string>>, n: nat): nat
    requires n <= |history|
  {
    if n == 0 then 0 else CountShown(history, needle, n - 1) + if Shows(history, needle, n - 1) then 1 else 0
  }

  lemma {:induction false} CountOverGap(history: seq<Entry>, needle: Option<seq<string>>, i: nat, j: nat)
    requires i <= j <= |history| && forall k :: i <= k < j ==> !Shows(history, needle, k)
    ensures CountShown(history, needle, j) == CountShown(history, needle, i)
  {
    if i < j {
      CountOverGap(history, needle, i, j - 1);
    }
  }

  /** On display is the `n`-th newest entry that contains the draft, duplicates apart. */
  ghost predicate AtMatch(history: seq<Entry>, nav: Nav, shown: Prompt, draft: Prompt, n: nat) {
    && 0 < nav.index <= |history|
    && nav.needle == Some(draft.lines) && nav.saved == Some(draft)
    && shown == Recalled(NthNewest(history, nav.index - 1))
    && Shows(history, Some(draft.lines), nav.index - 1)
    && CountShown(history, Some(draft.lines), nav.index) == n
  }

  lemma BackToNextMatch(history: seq<Entry>, nav: Nav, shown: Prompt, draft: Prompt, n: nat)
    requires if n == 0 then nav.index == 0 && shown == draft else AtMatch(history, nav, shown, draft, n)
    requires Back(history, nav, Some(shown)).shown.Some?
    ensures
      var b := Back(history, nav, Some(shown));
      AtMatch(history, b.nav, b.shown.value, draft, n + 1)
  {
    var b := Back(history, nav, Some(shown));
    BackShowsNearest(history, nav, shown);
    CountOverGap(history, Some(draft.lines), nav.index, b.nav.index - 1);
  }

  /** From the draft, the `n`-th step back shows the `n`-th newest entry that contains the draft, duplicates apart. */
  lemma {:induction false} BackCountsMatches(history: seq<Entry>, nav: Nav, draft: Prompt, n: nat)
    requires nav.index == 0 && n > 0 && Backs(history, nav, draft, n).Some?
    ensures
      var t := Backs(history, nav, draft, n).value;
      AtMatch(history, t.nav, t.shown, draft, n)
    decreases n
  {
    if n > 1 {
      BackCountsMatches(history, nav, draft, n - 1);
    }
    var s := Backs(history, nav, draft, n - 1).value;
    BackToNextMatch(history, s.nav, s.shown, draft, n - 1);
  }

  /** A step back that fails moves the position to the oldest entry all the same.  The next step forwards keeps
      the filter if and only if that entry, too, reads like the one on display, or the filter does. */
  lemma FailedBackKeepsFilterIff(history: seq<Entry>, nav: Nav, shown: Prompt)
    requires Settled(history, nav, shown) && nav.index > 0 && Back(history, nav, Some(shown)).shown.None?
    ensures
      var stuck := Back(history, nav, Some(shown)).nav;
      && stuck == nav.(index := |history|)
      && (Forwards(history, stuck, Some(shown)).nav.needle == nav.needle <==>
            NthNewest(history, |history| - 1).text == NthNewest(history, nav.index - 1).text || nav.needle == Some(shown.lines))
  {
    NothingToNote(history, nav, shown);
    JoinSplit(NthNewest(history, nav.index - 1).text, '\n');
  }

  lemma OccursWithin(a: string, b: string, c: string)
    requires OccursFrom(a, b, 0) && OccursFrom(b, c, 0)
    ensures OccursFrom(a, c, 0)
  {
    OccursFromIff(a, b, 0);
    OccursFromIff(b, c, 0);
    var i: nat :| OccursAt(a, b, i);
    var j: nat :| OccursAt(b, c, j);
    forall k | 0 <= k < |a|
      ensures c[j + i..j + i + |a|][k] == a[k]
    {
      assert a[k] == b[i..i + |a|][k] == b[i + k] == c[j..j + |b|][i + k];
    }
    assert OccursAt(a, c, j + i);
    OccursFromIff(a, c, 0);
  }

  lemma OccursInItself(a: string)
    ensures OccursFrom(a, a, 0)
  {
    assert a[0..|a|] == a;
    assert OccursAt(a, a, 0);
  }

  /** After a step back from the `index`-th newest entry that failed: the text of the oldest entry is another one. */
  predicate LosesFilter(history: seq<Entry>, index: nat)
    requires 0 < index <= |history|
  {
    NthNewest(history, |history| - 1).text != NthNewest(history, index - 1).text
  }

  /** The filter in force at the first step forwards. */
  function FilterAfter(history: seq<Entry>, nav: Nav, shown: Prompt): Option<seq<string>>
    requires 0 < nav.index <= |history|
  {
    if LosesFilter(history, nav.index) then Some(shown.lines) else nav.needle
  }

  /** What contains the text on display passes the filter that text has passed. */
  lemma NarrowerFilter(history: seq<Entry>, nav: Nav, shown: Prompt, i: nat)
    requires Settled(history, nav, shown) && nav.index > 0 && i < |history|
    ensures Shows(history, Some(shown.lines), i) ==> Shows(history, nav.needle, i)
  {
    JoinSplit(NthNewest(history, nav.index - 1).text, '\n');
    if nav.needle.Some? && Shows(history, Some(shown.lines), i) {
      OccursWithin(PromptText(nav.needle.value), PromptText(shown.lines), NthNewest(history, i).text);
    }
  }

  lemma ShownPassesItself(history: seq<Entry>, nav: Nav, shown: Prompt)
    requires Settled(history, nav, shown) && nav.index > 0
    ensures Shows(history, Some(shown.lines), nav.index - 1)
  {
    JoinSplit(NthNewest(history, nav.index - 1).text, '\n');
    OccursInItself(PromptText(shown.lines));
  }

  lemma PreviousShownIs(history: seq<Entry>, needle: Option<seq<string>>, i: nat, j: nat)
    requires j < i <= |history| && Shows(history, needle, j)
    requires forall k :: j < k < i ==> !Shows(history, needle, k)
    ensures PreviousShown(history, needle, i) == Some(j)
  {
    var r := PreviousShown(history, needle, i);
    assert r.Some?;
  }

  /** After a step back that failed, the next step forwards leaves the display where it is exactly when the failed
      step had somewhere to go, which is when older entries are left; otherwise it is as if there had been none. */
  lemma ForwardsAfterFailedBack(history: seq<Entry>, nav: Nav, shown: Prompt)
    requires Settled(history, nav, shown) && nav.index > 0 && Back(history, nav, Some(shown)).shown.None?
    ensures
      var stuck := Back(history, nav, Some(shown)).nav;
      var f := Forwards(history, stuck, Some(shown));
      && stuck == nav.(index := |history|)
      && (f.nav.index == nav.index <==> nav.index < |history|)
      && (nav.index < |history| ==> f == Step(nav.(needle := FilterAfter(history, nav, shown)), Some(shown)))
      && (nav.index == |history| ==> stuck == nav)
  {
    var n, needle := |history|, FilterAfter(history, nav, shown);
    BackShowsNearest(history, nav, shown);
    NothingToNote(history, nav, shown);
    var stuck := nav.(index := n);
    JoinSplit(NthNewest(history, nav.index - 1).text, '\n');
    if nav.index < n {
      ShownPassesItself(history, nav, shown);
      forall k | nav.index <= k < n
        ensures !Shows(history, needle, k)
      {
        NarrowerFilter(history, nav, shown, k);
      }
      PreviousShownIs(history, needle, n - 1, nav.index - 1);
      assert UpdateNeedle(history, stuck, shown.lines) == stuck.(needle := needle);
    }
  }

  /** The step forwards after that one skips a match of the old filter exactly when the filter was lost and the nearest
      newer match does not contain the text on display. */
  lemma {:induction false} SkipsAfterFailedBackIff(history: seq<Entry>, nav: Nav, shown: Prompt)
    requires Settled(history, nav, shown) && 0 < nav.index < |history| && Back(history, nav, Some(shown)).shown.None?
    ensures
      var f := Forwards(history, Back(history, nav, Some(shown)).nav, Some(shown));
      var newer := PreviousShown(history, nav.needle, nav.index - 1);
      && f.nav.index == nav.index
      && (Forwards(history, f.nav, f.shown).nav.index == Forwards(history, nav, Some(shown)).nav.index <==>
            !(LosesFilter(history, nav.index) && newer.Some? && !OccursFrom(PromptText(shown.lines), NthNewest(history, newer.value).text, 0)))
  {
    ForwardsAfterFailedBack(history, nav, shown);
    NothingToNote(history, nav, shown);
    JoinSplit(NthNewest(history, nav.index - 1).text, '\n');
    if LosesFilter(history, nav.index) {
      NarrowerPrevious(history, nav, shown);
    }
  }

  lemma NarrowerPrevious(history: seq<Entry>, nav: Nav, shown: Prompt)
    requires Settled(history, nav, shown) && nav.index > 0
    ensures
      var wide, narrow := PreviousShown(history, nav.needle, nav.index - 1), PreviousShown(history, Some(shown.lines), nav.index - 1);
      && (wide.None? ==> narrow.None?)
      && (narrow == wide <==> wide.None? || OccursFrom(PromptText(shown.lines), NthNewest(history, wide.value).text, 0))
  {
    var wide, narrow := PreviousShown(history, nav.needle, nav.index - 1), PreviousShown(history, Some(shown.lines), nav.index - 1);
    if narrow.Some? {
      NarrowerFilter(history, nav, shown, narrow.value);
    }
    if wide.Some? && OccursFrom(PromptText(shown.lines), NthNewest(history, wide.value).text, 0) {
      forall k | wide.value < k < nav.index - 1
        ensures !Shows(history, Some(shown.lines), k)
      {
        NarrowerFilter(history, nav, shown, k);
      }
      PreviousShownIs(history, Some(shown.lines), nav.index - 1, wide.value);
    }
  }

  lemma {:induction false} SplitLine(s: string)
    requires '\n' !in s
    ensures Split(s, '\n') == [s] && PromptText([s]) == s
  {
    SplitWithout(s, '\n');
  }

  lemma TextsWithX()
    ensures OccursFrom("x", "x1", 0) && OccursFrom("x", "x2", 0) && !OccursFrom("x", "b", 0)
    ensures !OccursFrom("x2", "x1", 0) && OccursFrom("x2", "x2", 0) && !OccursFrom("x2", "b", 0)
  {
    assert OccursAt("x", "x1", 0) && OccursAt("x", "x2", 0);
    assert "b"[0..1][0] != "x"[0];
    assert "x1"[0..2][1] != "x2"[1];
    assert !OccursAt("x2", "x1", 0) && OccursAt("x2", "x2", 0);
  }

  const THREE := [Entry("r", "b"), Entry("r", "x2"), Entry("r", "x1")]

  /** With the draft x and the entries x1, x2 and b, newest first, two steps back show x1 and x2 and a third one
      fails.  The next step forwards seems to fail, too, and the one after it goes to the draft past x1. */
  lemma {:induction false} FailedBackSkips(draft: Prompt, x1: Prompt, x2: Prompt)
    requires draft == Prompt("r", ["x"]) && x1 == Prompt("r", ["x1"]) && x2 == Prompt("r", ["x2"])
    ensures
      var one, two, end := Nav(1, Some(draft), Some(["x"])), Nav(2, Some(draft), Some(["x"])), Nav(3, Some(draft), Some(["x"]));
      var again, home := Nav(2, Some(draft), Some(["x2"])), Nav(0, Some(draft), Some(["x2"]));
      && Back(THREE, Nav(0, None, None), Some(draft)) == Step(one, Some(x1))
      && Back(THREE, one, Some(x1)) == Step(two, Some(x2))
      && Back(THREE, two, Some(x2)) == Step(end, None)
      && Forwards(THREE, end, Some(x2)) == Step(again, Some(x2))
      && Forwards(THREE, again, Some(x2)) == Step(home, Some(draft))
  {
    TextsWithX();
    SplitLine("x1");
    SplitLine("x2");
    assert PromptText(["x"]) == "x";
    assert NextShown(THREE, Some(["x"]), 2) == None;
    assert PreviousShown(THREE, Some(["x2"]), 1) == None;
  }

  // ------------------------------------------------------------------ searching

  function LowercaseChar(c: char): char {
    if 'A' <= c <= 'Z' then c - 'A' + 'a' else c
  }

  function Lowercase(s: string): string {
    seq(|s|, i requires 0 <= i < |s| => LowercaseChar(s[i]))
  }

  predicate Found(needle: string, e: Entry) {
    OccursFrom(needle, Lowercase(e.text), 0)
  }

  /** The matches among the `n` newest entries, each once, at its newest place. */
  function DistinctMatches(history: seq<Entry>, needle: string, n: nat): seq<Entry>
    requires n <= |history|
  {
    if n == 0 then []
    else
      var before, e := DistinctMatches(history, needle, n - 1), NthNewest(history, n - 1);
      if e !in before && Found(needle, e) then before + [e] else before
  }

  lemma {:induction false} DistinctMatchesGrow(history: seq<Entry>, needle: string, i: nat, n: nat)
    requires i <= n <= |history|
    ensures DistinctMatches(history, needle, i) <= DistinctMatches(history, needle, n)
    decreases n - i
  {
    if i < n {
      DistinctMatchesGrow(history, needle, i, n - 1);
    }
  }

  lemma {:induction false} SearchFinds(history: seq<Entry>, needle: string, n: nat, e: Entry)
    requires n <= |history|
    ensures e in DistinctMatches(history, needle, n) <==> Found(needle, e) && exists i :: 0 <= i < n && NthNewest(history, i) == e
  {
    if n > 0 {
      SearchFinds(history, needle, n - 1, e);
      assert NthNewest(history, n - 1) == e ==> exists i :: 0 <= i < n && NthNewest(history, i) == e;
    }
  }

  ghost predicate AllDifferent(entries: seq<Entry>) {
    forall j, k :: 0 <= j < k < |entries| ==> entries[j] != entries[k]
  }

  lemma {:induction false} NothingTwice(history: seq<Entry>, needle: string, n: nat)
    requires n <= |history|
    ensures AllDifferent(DistinctMatches(history, needle, n))
  {
    if n > 0 {
      NothingTwice(history, needle, n - 1);
      var before := DistinctMatches(history, needle, n - 1);
      if NthNewest(history, n - 1) !in before {
        NewAtTheEnd(before, NthNewest(history, n - 1));
      }
    }
  }

  lemma NewAtTheEnd(before: seq<Entry>, e: Entry)
    requires e !in before && AllDifferent(before)
    ensures AllDifferent(before + [e])
  {
    forall j, k | 0 <= j < k < |before + [e]|
      ensures (before + [e])[j] != (before + [e])[k]
    {
      assert before[j] in before;
    }
  }

  /** Searching finds every entry that contains the needle, whatever the case of the letters, no other, and none twice. */
  lemma DistinctMatchesSpec(history: seq<Entry>, needle: string, n: nat)
    requires n <= |history|
    ensures
      var found := DistinctMatches(history, needle, n);
      && (forall e :: e in found <==>
            (exists j: nat :: OccursAt(needle, Lowercase(e.text), j)) && exists i :: 0 <= i < n && NthNewest(history, i) == e)
      && AllDifferent(found)
  {
    NothingTwice(history, needle, n);
    forall e
      ensures e in DistinctMatches(history, needle, n) <==>
        (exists j: nat :: OccursAt(needle, Lowercase(e.text), j)) && exists i :: 0 <= i < n && NthNewest(history, i) == e
    {
      SearchFinds(history, needle, n, e);
      OccursFromIff(needle, Lowercase(e.text), 0);
    }
  }

  /** The same but for the case of an ASCII letter. */
  predicate SameLetter(a: char, b: char) {
    || a == b
    || ('A' <= a <= 'Z' && b as int == a as int + 32)
    || ('A' <= b <= 'Z' && a as int == b as int + 32)
  }

  /** From `j` on, the text reads like `part` but for the case of letters. */
  ghost predicate ReadsAt(part: string, text: string, j: nat) {
    j + |part| <= |text| && forall k :: 0 <= k < |part| ==> SameLetter(part[k], text[j + k])
  }

  lemma LowercaseIff(a: char, b: char)
    ensures LowercaseChar(a) == LowercaseChar(b) <==> SameLetter(a, b)
  {
  }

  lemma ReadsAtIff(part: string, text: string, j: nat)
    ensures OccursAt(Lowercase(part), Lowercase(text), j) <==> ReadsAt(part, text, j)
  {
    if j + |part| <= |text| {
      var there := Lowercase(text)[j..j + |part|];
      forall k | 0 <= k < |part|
        ensures there[k] == Lowercase(part)[k] <==> SameLetter(part[k], text[j + k])
      {
        LowercaseIff(part[k], text[j + k]);
      }
    }
  }

  /** Searching, told without lower case: an entry is found exactly when it is in the history and reads like the needle
      somewhere, but for the case of letters. */
  lemma {:induction false} SearchIgnoresCase(history: seq<Entry>, needle: string, e: Entry)
    ensures e in DistinctMatches(history, Lowercase(needle), |history|) <==> e in history && exists j: nat :: ReadsAt(needle, e.text, j)
  {
    DistinctMatchesSpec(history, Lowercase(needle), |history|);
    InHistoryIff(history, e);
    forall j: nat
      ensures OccursAt(Lowercase(needle), Lowercase(e.text), j) <==> ReadsAt(needle, e.text, j)
    {
      ReadsAtIff(needle, e.text, j);
    }
  }

  lemma InHistoryIff(history: seq<Entry>, e: Entry)
    ensures e in history <==> exists i :: 0 <= i < |history| && NthNewest(history, i) == e
  {
    if e in history {
      var k :| 0 <= k < |history| && history[k] == e;
      assert NthNewest(history, |history| - 1 - k) == e;
    }
  }
}
