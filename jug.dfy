/** The content script's "brain jug": a daily counter of replaced phrases the reader has seen.
    An `IntersectionObserver` callback counts each replacement span once, when at least half of
    it is on screen and it is rendered, until the count reaches 200; the stored count is reset
    on a new day, and the popup's animation shows the drops added since it last looked. */
module BrainJug {
  import opened Wrappers

  /** The daily goal: the count never goes past it. */
  const MaxDrops: nat := 200

  /** The most drops one animation shows. */
  const MaxAnimatedDrops: nat := 50

  /** One `IntersectionObserverEntry` for a replacement span `target`, with the result of the
      rendered-size-and-style test (`isVisible`) as an input. */
  datatype Entry = Entry(target: nat, isIntersecting: bool, intersectionRatio: real, visible: bool)

  /** The keys of `chrome.storage.local` the counter reads and writes. */
  datatype Stored = Stored(dropsInJug: Option<nat>, hasReachedMax: Option<bool>,
                           lastResetDate: Option<string>, lastJugCount: Option<nat>)

  /** The counter's variables and its stored keys. */
  datatype JugState = JugState(drops: nat, hasReachedMax: bool, observed: set<nat>, storage: Stored)

  /** The `BRAIN_JUG_UPDATE` message sent to an open popup. */
  datatype JugUpdate = JugUpdate(count: nat, lastCount: nat)

  /** The callback's test: the entry is counted. */
  predicate Counts(s: JugState, e: Entry) {
    && e.isIntersecting
    && e.intersectionRatio >= 0.5
    && e.target !in s.observed
    && s.drops < MaxDrops
    && e.visible
  }

  /** The callback on one entry. */
  function Step(s: JugState, e: Entry): JugState {
    if !Counts(s, e) then s
    else
      var drops := s.drops + 1;
      var reached := drops == MaxDrops && !s.hasReachedMax;
      var storage := if reached then s.storage.(hasReachedMax := Some(true)) else s.storage;
      JugState(drops, s.hasReachedMax || reached, s.observed + {e.target}, storage.(dropsInJug := Some(drops)))
  }

  /** The callback on the first `n` entries of a batch (`entries.forEach`). */
  function Steps(s: JugState, entries: seq<Entry>, n: nat): JugState
    requires n <= |entries|
  {
    if n == 0 then s else Step(Steps(s, entries, n - 1), entries[n - 1])
  }

  /** The messages sent to an open popup for the first `n` entries. */
  function Updates(s: JugState, entries: seq<Entry>, n: nat): seq<JugUpdate>
    requires n <= |entries|
  {
    if n == 0 then []
    else
      var before := Steps(s, entries, n - 1);
      var prev := Updates(s, entries, n - 1);
      if Counts(before, entries[n - 1]) then prev + [JugUpdate(before.drops + 1, before.drops)] else prev
  }

  /** A stored count within the goal. */
  predicate StoredValid(st: Stored) {
    st.dropsInJug.Some? ==> st.dropsInJug.value <= MaxDrops
  }

  /** The state the counter keeps: the count and the stored count within the goal. */
  predicate Valid(s: JugState) {
    s.drops <= MaxDrops && StoredValid(s.storage)
  }

  /** One entry keeps the count within the goal and counts a new element at most once; the goal
      flag is set exactly when the count has reached the goal. */
  lemma StepFacts(s: JugState, e: Entry)
    requires Valid(s)
    ensures var s' := Step(s, e);
      && Valid(s')
      && s.observed <= s'.observed
      && s'.drops == s.drops + |s'.observed - s.observed|
      && s'.hasReachedMax == (s.hasReachedMax || (s'.drops == MaxDrops && s'.drops != s.drops))
  {
    var s' := Step(s, e);
    if Counts(s, e) {
      assert s'.observed - s.observed == {e.target};
    } else {
      assert s'.observed - s.observed == {};
    }
  }

  /** The same over a batch of entries: the count grows by the number of newly seen elements and
      never passes the goal, and once the goal is reached the flag stays set. */
  lemma {:induction false} StepsFacts(s: JugState, entries: seq<Entry>, n: nat)
    requires Valid(s) && n <= |entries|
    ensures var s' := Steps(s, entries, n);
      && Valid(s')
      && s.observed <= s'.observed
      && s'.drops == s.drops + |s'.observed - s.observed|
      && (s'.drops == MaxDrops && s.drops < MaxDrops ==> s'.hasReachedMax)
      && (s.hasReachedMax ==> s'.hasReachedMax)
  {
    if n > 0 {
      var mid := Steps(s, entries, n - 1);
      StepsFacts(s, entries, n - 1);
      StepFacts(mid, entries[n - 1]);
      var s' := Steps(s, entries, n);
      DifferenceGrows(s.observed, mid.observed, s'.observed);
    }
  }

  lemma DifferenceGrows(a: set<nat>, b: set<nat>, c: set<nat>)
    requires a <= b <= c
    ensures |c - a| == |b - a| + |c - b|
  {
    assert c - a == (b - a) + (c - b);
    assert (b - a) * (c - b) == {};
  }

  /** Every message reports one more drop than the one before. */
  lemma {:induction false} UpdatesCount(s: JugState, entries: seq<Entry>, n: nat)
    requires n <= |entries|
    ensures forall i :: 0 <= i < |Updates(s, entries, n)| ==>
      Updates(s, entries, n)[i].count == Updates(s, entries, n)[i].lastCount + 1
  {
    if n > 0 {
      UpdatesCount(s, entries, n - 1);
    }
  }

  /** An element already counted is not counted again. */
  lemma SeenNotCounted(s: JugState, e: Entry)
    requires e.target in s.observed
    ensures Step(s, e) == s
  {
  }

  /** At the goal nothing more is counted. */
  lemma FullJugStays(s: JugState, e: Entry)
    requires s.drops == MaxDrops
    ensures Step(s, e) == s
  {
  }

  /** The storage callback when the content script loads, on day `today`
      (`new Date().toDateString()`): the stored count and flag are taken, a new day resets the
      count, the flag and the seen elements, and a missing `lastJugCount` is set to the count. */
  function Load(s: JugState, today: string): JugState {
    var drops := if s.storage.dropsInJug.Some? then s.storage.dropsInJug.value else s.drops;
    var reached := if s.storage.hasReachedMax.Some? then s.storage.hasReachedMax.value else s.hasReachedMax;
    var s1 :=
      if s.storage.lastResetDate != Some(today) then
        JugState(0, false, {}, Stored(Some(0), Some(false), Some(today), Some(0)))
      else JugState(drops, reached, s.observed, s.storage);
    if s1.storage.lastJugCount.None? then s1.(storage := s1.storage.(lastJugCount := Some(s1.drops))) else s1
  }

  /** On a new day the jug is empty, nothing counts as seen, and the day is stored. */
  lemma NewDayResets(s: JugState, today: string)
    requires s.storage.lastResetDate != Some(today)
    ensures var s' := Load(s, today);
      s'.drops == 0 && !s'.hasReachedMax && s'.observed == {} && s'.storage.lastResetDate == Some(today)
      && s'.storage.lastJugCount == Some(0) && Valid(s')
  {
  }

  /** On the same day the stored count is kept. */
  lemma SameDayKeeps(s: JugState, today: string)
    requires s.storage.lastResetDate == Some(today) && s.storage.dropsInJug.Some?
    ensures Load(s, today).drops == s.storage.dropsInJug.value
    ensures Load(s, today).observed == s.observed
  {
  }

  /** Loading keeps a valid state valid, and loading twice on one day is loading once. */
  lemma LoadFacts(s: JugState, today: string)
    ensures Valid(s) ==> Valid(Load(s, today))
    ensures Load(Load(s, today), today) == Load(s, today)
    ensures Load(s, today).storage.lastResetDate == Some(today)
  {
  }

  /** `showJugAnimation`: the drops since the popup last looked, at most 50, are animated and
      the current count is stored as the one last shown. `lastJugCount` is the value the shared
      `chrome.storage.local` holds when the command arrives; the popup writes it too, so it need
      not be the one this tab last stored. */
  function Show(s: JugState, lastJugCount: Option<nat>): (r: (JugState, nat))
    ensures r.1 <= MaxAnimatedDrops
    ensures r.0.storage.lastJugCount == Some(s.drops)
    ensures r.0.drops == s.drops && r.0.observed == s.observed
  {
    var lastCount := lastJugCount.GetOr(0);
    var increment := if s.drops - lastCount > 0 then s.drops - lastCount else 0;
    var dropsToAnimate := if increment < MaxAnimatedDrops then increment else MaxAnimatedDrops;
    (s.(storage := s.storage.(lastJugCount := Some(s.drops))), dropsToAnimate)
  }

  /** The animation shows exactly the new drops, capped at 50, and a second look right after,
      reading back what the first one stored, shows none. */
  lemma ShowFacts(s: JugState, lastJugCount: Option<nat>)
    ensures var last := lastJugCount.GetOr(0);
      s.drops >= last && s.drops - last <= MaxAnimatedDrops ==> Show(s, lastJugCount).1 == s.drops - last
    ensures s.drops <= lastJugCount.GetOr(0) ==> Show(s, lastJugCount).1 == 0
    ensures var s' := Show(s, lastJugCount).0; Show(s', s'.storage.lastJugCount).1 == 0
    ensures Valid(s) ==> Valid(Show(s, lastJugCount).0)
  {
  }

  /** `animateJugDrops`: how many drops the animation creates for a requested count; a count
      that is not positive creates none. */
  function AnimatedDrops(count: int): (r: nat)
    ensures r <= MaxAnimatedDrops
    ensures r <= count || r == 0
    ensures 0 <= count <= MaxAnimatedDrops ==> r == count
  {
    if count <= 0 then 0 else if count < MaxAnimatedDrops then count else MaxAnimatedDrops
  }

  /** The counter of one tab. */
  class Jug {
    var state: JugState
    var popupIsOpen: bool

    /** The variables as the content script starts, over the tab's stored keys. */
    constructor (storage: Stored)
      ensures state == JugState(0, false, {}, storage) && !popupIsOpen
    {
      state := JugState(0, false, {}, storage);
      popupIsOpen := false;
    }

    /** The `IntersectionObserver` callback on a batch of entries. */
    method OnEntries(entries: seq<Entry>) returns (updates: seq<JugUpdate>)
      modifies this
      ensures state == Steps(old(state), entries, |entries|)
      ensures popupIsOpen == old(popupIsOpen)
      ensures updates == if popupIsOpen then Updates(old(state), entries, |entries|) else []
    {
      updates := [];
      var i := 0;
      while i < |entries|
        invariant 0 <= i <= |entries| && popupIsOpen == old(popupIsOpen)
        invariant state == Steps(old(state), entries, i)
        invariant updates == if popupIsOpen then Updates(old(state), entries, i) else []
      {
        var entry := entries[i];
        if entry.isIntersecting && entry.intersectionRatio >= 0.5 && entry.target !in state.observed
           && state.drops < MaxDrops {
          if entry.visible {
            var previousCount := state.drops;
            var drops := state.drops + 1;
            var storage := state.storage;
            var reached := state.hasReachedMax;
            if drops == MaxDrops && !reached {
              reached := true;
              storage := storage.(hasReachedMax := Some(true));
            }
            state := JugState(drops, reached, state.observed + {entry.target}, storage.(dropsInJug := Some(drops)));
            if popupIsOpen {
              updates := updates + [JugUpdate(drops, previousCount)];
            }
          }
        }
        i := i + 1;
      }
    }

    /** The storage callback when the content script loads. */
    method LoadSaved(today: string)
      modifies this
      ensures state == Load(old(state), today) && popupIsOpen == old(popupIsOpen)
    {
      var result := state.storage;
      if result.dropsInJug.Some? {
        state := state.(drops := result.dropsInJug.value);
      }
      if result.hasReachedMax.Some? {
        state := state.(hasReachedMax := result.hasReachedMax.value);
      }
      if result.lastResetDate != Some(today) {
        state := JugState(0, false, {}, Stored(Some(0), Some(false), Some(today), Some(0)));
      }
      if state.storage.lastJugCount.None? {
        state := state.(storage := state.storage.(lastJugCount := Some(state.drops)));
      }
    }

    /** The `showJugAnimation` command: the count and the number of drops to animate, given the
        `lastJugCount` read from `chrome.storage.local`. */
    method ShowJugAnimation(lastJugCount: Option<nat>) returns (count: nat, dropsToAnimate: nat)
      modifies this
      ensures state == Show(old(state), lastJugCount).0 && dropsToAnimate == Show(old(state), lastJugCount).1
      ensures count == old(state).drops && popupIsOpen == old(popupIsOpen)
    {
      var lastCount := lastJugCount.GetOr(0);
      var increment := state.drops - lastCount;
      if increment < 0 {
        increment := 0;
      }
      dropsToAnimate := if MaxAnimatedDrops < increment then MaxAnimatedDrops else increment;
      state := state.(storage := state.storage.(lastJugCount := Some(state.drops)));
      count := state.drops;
    }

    /** The `getJugCount` command: the popup is open and gets the count. */
    method GetJugCount() returns (count: nat)
      modifies this
      ensures popupIsOpen && count == state.drops && state == old(state)
    {
      popupIsOpen := true;
      count := state.drops;
    }

    /** The `animateDrops` command: animates the drops the popup asks for (`message.count || 0`)
        without touching the count or the stored keys. */
    method AnimateDrops(count: Option<int>) returns (dropsAnimated: nat)
      ensures dropsAnimated == AnimatedDrops(count.GetOr(0))
      ensures dropsAnimated <= MaxAnimatedDrops
    {
      var requested := count.GetOr(0);
      dropsAnimated := if requested <= 0 then 0 else if requested < MaxAnimatedDrops then requested else MaxAnimatedDrops;
    }

    /** The `popupClosed` command. */
    method PopupClosed()
      modifies this
      ensures !popupIsOpen && state == old(state)
    {
      popupIsOpen := false;
    }
  }
}
