/** The popup: which pages it sends work to, the brain jug's progress display, the user's list of
    replacements, the processed-tab marks and the auto-process setting. */
module Popup {
  import opened Wrappers
  import opened Text
  import opened Json
  import opened Rules
  import BrainJug
  import Background

  // ---------------------------------------------------------------------------------------------
  // Pages the extension may work on

  /** The schemes the popup refuses. */
  const PopupRestricted: seq<string> := ["chrome://", "about:", "edge://", "moz-extension://", "safari-extension://"]

  /** The schemes on which the content script returns before doing anything. */
  const ContentRestricted: seq<string> :=
    ["chrome://", "chrome-extension://", "about:", "edge://", "moz-extension://", "safari-extension://"]

  predicate AvoidsAll(url: string, prefixes: seq<string>) {
    forall i :: 0 <= i < |prefixes| ==> !StartsWith(url, prefixes[i])
  }

  lemma AvoidsPopupRestricted(url: string)
    ensures AvoidsAll(url, PopupRestricted) <==>
      && !StartsWith(url, "chrome://")
      && !StartsWith(url, "about:")
      && !StartsWith(url, "edge://")
      && !StartsWith(url, "moz-extension://")
      && !StartsWith(url, "safari-extension://")
  {
    var ps := PopupRestricted;
    if !StartsWith(url, ps[0]) && !StartsWith(url, ps[1]) && !StartsWith(url, ps[2])
       && !StartsWith(url, ps[3]) && !StartsWith(url, ps[4]) {
      forall i | 0 <= i < |ps| ensures !StartsWith(url, ps[i]) {
        if i == 0 {} else if i == 1 {} else if i == 2 {} else if i == 3 {} else {}
      }
    }
  }

  /** `isValidPageForContentScript` on the active tab's URL (an absent URL is the empty one). */
  function IsValidPage(url: string): (r: bool)
    ensures r <==> url != [] && AvoidsAll(url, PopupRestricted)
  {
    AvoidsPopupRestricted(url);
    && url != []
    && !StartsWith(url, "chrome://")
    && !StartsWith(url, "about:")
    && !StartsWith(url, "edge://")
    && !StartsWith(url, "moz-extension://")
    && !StartsWith(url, "safari-extension://")
  }

  /** The content script's own guard on `window.location.href`. */
  predicate ContentScriptRuns(url: string) {
    AvoidsAll(url, ContentRestricted)
  }

  /** Every page the content script works on is one the popup accepts, once it has a URL. */
  lemma ContentPagesAreValid(url: string)
    requires url != [] && ContentScriptRuns(url)
    ensures IsValidPage(url)
  {
    assert !StartsWith(url, ContentRestricted[0]);
    assert !StartsWith(url, ContentRestricted[2]);
    assert !StartsWith(url, ContentRestricted[3]);
    assert !StartsWith(url, ContentRestricted[4]);
    assert !StartsWith(url, ContentRestricted[5]);
  }

  /** The converse fails for extension pages: the popup accepts them and sends its messages, but
      the content script refuses them. */
  lemma ExtensionPagesDisagree(url: string)
    requires StartsWith(url, "chrome-extension://")
    ensures IsValidPage(url) && !ContentScriptRuns(url)
  {
    assert url[0] == 'c' && url[6] == '-';
    assert !StartsWith(url, ContentRestricted[0]) by { assert "chrome://"[6] == ':'; }
    assert StartsWith(url, ContentRestricted[1]);
  }

  // ---------------------------------------------------------------------------------------------
  // The progress display

  /** The daily goal. */
  const Goal: int := 200

  /** `INCREMENT_ANIMATION_CAP`. */
  const IncrementCap: int := 50

  /** `Math.min(100, Math.round((count / goal) * 100))` on exact arithmetic: half the count,
      rounded half up, capped at 100. */
  function Percentage(count: int): (p: int)
    ensures p <= 100
    ensures p == 100 || 2 * p - 1 <= count < 2 * p + 1
    ensures p == 100 <==> count >= 2 * 100 - 1
    ensures count >= 0 ==> p >= 0
  {
    var rounded := (count + 1) / 2;
    if rounded < 100 then rounded else 100
  }

  /** The progress message, by its tier; the offline and new-day messages come first. */
  datatype Progress =
    | OfflineMode
    | NewDayStart
    | StartJourney
    | EarlyProgress(percent: int)
    | KeepGoing(percent: int)
    | Halfway(percent: int)
    | AlmostThere(percent: int)
    | GoalAchieved

  /** The tier chain on the percentage, shared by the count display and the count animation. */
  function Tier(p: int): Progress {
    if p == 0 then StartJourney
    else if p < 25 then EarlyProgress(p)
    else if p < 50 then KeepGoing(p)
    else if p < 75 then Halfway(p)
    else if p < 100 then AlmostThere(p)
    else GoalAchieved
  }

  /** The message of `updateBrainJugCount`. */
  function ProgressMessage(count: int, isOffline: bool, isNewDay: bool): Progress {
    if isOffline then OfflineMode
    else if isNewDay && count == 0 then NewDayStart
    else Tier(Percentage(count))
  }

  /** The tiers' order, lowest first. */
  function Rank(m: Progress): nat {
    match m
    case OfflineMode => 0
    case NewDayStart => 0
    case StartJourney => 0
    case EarlyProgress(_) => 1
    case KeepGoing(_) => 2
    case Halfway(_) => 3
    case AlmostThere(_) => 4
    case GoalAchieved => 5
  }

  /** Each tier covers exactly its range of percentages and carries the percentage it shows. */
  lemma TierRanges(p: int)
    requires 0 <= p <= 100
    ensures Tier(p) == StartJourney <==> p == 0
    ensures Tier(p).EarlyProgress? <==> 0 < p < 25
    ensures Tier(p).KeepGoing? <==> 25 <= p < 50
    ensures Tier(p).Halfway? <==> 50 <= p < 75
    ensures Tier(p).AlmostThere? <==> 75 <= p < 100
    ensures Tier(p) == GoalAchieved <==> p == 100
    ensures Tier(p).EarlyProgress? || Tier(p).KeepGoing? || Tier(p).Halfway? || Tier(p).AlmostThere?
            ==> Tier(p).percent == p
  {
  }

  /** A larger count never shows a lower tier. */
  lemma TierMonotone(count: int, count': int)
    requires 0 <= count <= count'
    ensures Rank(Tier(Percentage(count))) <= Rank(Tier(Percentage(count')))
  {
  }

  /** The offline message wins, then the new-day message for an empty jug; a full jug otherwise
      always reads as the goal achieved. */
  lemma ProgressMessageCases(count: int, isOffline: bool, isNewDay: bool)
    ensures isOffline ==> ProgressMessage(count, isOffline, isNewDay) == OfflineMode
    ensures !isOffline && isNewDay && count == 0 ==> ProgressMessage(count, isOffline, isNewDay) == NewDayStart
    ensures !isOffline && count >= Goal ==> ProgressMessage(count, isOffline, isNewDay) == GoalAchieved
    ensures !isOffline && count == 0 ==> ProgressMessage(count, isOffline, isNewDay).NewDayStart? == isNewDay
  {
  }

  /** The container's classes after an update: `full`, `offline` and `new-day` set by the
      arguments, every other class kept. */
  function StyleClasses(classes: set<string>, count: int, isOffline: bool, isNewDay: bool): set<string> {
    (classes - {"full", "offline", "new-day"})
    + (if count >= Goal then {"full"} else {})
    + (if isOffline then {"offline"} else {})
    + (if isNewDay then {"new-day"} else {})
  }

  lemma StyleClassesFacts(classes: set<string>, count: int, isOffline: bool, isNewDay: bool)
    ensures var r := StyleClasses(classes, count, isOffline, isNewDay);
      && ("full" in r <==> count >= Goal)
      && ("offline" in r <==> isOffline)
      && ("new-day" in r <==> isNewDay)
      && (forall c :: c != "full" && c != "offline" && c != "new-day" ==> (c in r <==> c in classes))
  {
  }

  /** One frame of `animateCount`: the count at `elapsed` milliseconds into the 600 ms animation. */
  function CountFrame(from: int, to: int, elapsed: real): int
    requires elapsed >= 0.0
  {
    FrameAt(from, to, Progressed(elapsed))
  }

  /** The count shown once the fraction `p` of the animation is done. */
  function FrameAt(from: int, to: int, p: real): int {
    (from as real + (to - from) as real * p).Floor
  }

  /** The fraction of the animation done after `elapsed` milliseconds. */
  function Progressed(elapsed: real): (p: real)
    requires elapsed >= 0.0
    ensures 0.0 <= p <= 1.0
    ensures elapsed >= 600.0 ==> p == 1.0
    ensures elapsed == 0.0 ==> p == 0.0
  {
    if elapsed / 600.0 < 1.0 then elapsed / 600.0 else 1.0
  }

  lemma ProgressedMonotone(elapsed: real, later: real)
    requires 0.0 <= elapsed <= later
    ensures Progressed(elapsed) <= Progressed(later)
  {
  }

  /** Frames at fractions in order are in order, between the old count at the start and the new
      count at the end. */
  lemma FrameAtFacts(from: int, to: int, p1: real, p2: real)
    requires from <= to && 0.0 <= p1 <= p2 <= 1.0
    ensures from <= FrameAt(from, to, p1) <= FrameAt(from, to, p2) <= to
    ensures FrameAt(from, to, 0.0) == from && FrameAt(from, to, 1.0) == to
  {
    var d := (to - from) as real;
    ScaledBetween(d, p1, p2);
    FrameBounds(from, to, d * p1, d * p2);
    assert d * 0.0 == 0.0 && d * 1.0 == d;
  }

  /** An upward animation starts at the old count, stays between the two counts, never goes back
      and ends on the new count, whose message it then shows. */
  lemma CountFrameFacts(from: int, to: int, elapsed: real, later: real)
    requires from <= to && 0.0 <= elapsed <= later
    ensures from <= CountFrame(from, to, elapsed) <= to
    ensures CountFrame(from, to, 0.0) == from
    ensures CountFrame(from, to, elapsed) <= CountFrame(from, to, later)
    ensures later >= 600.0 ==> CountFrame(from, to, later) == to
    ensures later >= 600.0 ==> Tier(Percentage(CountFrame(from, to, later))) == ProgressMessage(to, false, false)
  {
    ProgressedMonotone(elapsed, later);
    FrameAtFacts(from, to, Progressed(elapsed), Progressed(later));
  }

  /** Scaling a non-negative distance by two fractions in order keeps them in order. */
  lemma ScaledBetween(d: real, p1: real, p2: real)
    requires d >= 0.0 && 0.0 <= p1 <= p2 <= 1.0
    ensures 0.0 <= d * p1 <= d * p2 <= d
  {
    assert d * p2 - d * p1 == d * (p2 - p1);
    assert d - d * p2 == d * (1.0 - p2);
  }

  /** Two frames at offsets `a <= b` into the animation are in order, between the two counts. */
  lemma FrameBounds(from: int, to: int, a: real, b: real)
    requires 0.0 <= a <= b <= (to - from) as real
    ensures from <= (from as real + a).Floor <= (from as real + b).Floor <= to
  {
  }

  /** What `showIncrementThenTotal` puts on screen. */
  datatype CountView = IncrementView(from: int, increment: int, to: int) | TotalView(count: int)

  function CountUpdate(currentCount: int, lastCount: int): CountView {
    var increment := currentCount - lastCount;
    if increment > 0 then IncrementView(lastCount, increment, currentCount) else TotalView(currentCount)
  }

  /** The `lastJugCount` written back: the new count, only when it grew. */
  function StoredLastCount(currentCount: int, lastCount: int): Option<int> {
    if currentCount - lastCount > 0 then Some(currentCount) else None
  }

  /** The drops the popup asks the page to animate: the growth, capped at 50. */
  function DropsToAnimate(currentCount: int, lastCount: int): Option<int> {
    if currentCount > lastCount then Some(if currentCount - lastCount < IncrementCap then currentCount - lastCount else IncrementCap)
    else None
  }

  /** A growth shows the old count, the positive growth, and the new count it adds up to, stores
      the new count as the last one seen and animates between 1 and 50 drops; no growth shows the
      total and stores and animates nothing. */
  lemma CountUpdateFacts(currentCount: int, lastCount: int)
    ensures var v := CountUpdate(currentCount, lastCount);
      && (v.IncrementView? <==> currentCount > lastCount)
      && (v.IncrementView? ==> v.from == lastCount && v.increment > 0 && v.from + v.increment == v.to == currentCount)
      && (v.TotalView? ==> v.count == currentCount)
      && (StoredLastCount(currentCount, lastCount).Some? <==> v.IncrementView?)
      && (StoredLastCount(currentCount, lastCount).Some? ==> StoredLastCount(currentCount, lastCount).value == currentCount)
      && (DropsToAnimate(currentCount, lastCount).Some? <==> v.IncrementView?)
      && (DropsToAnimate(currentCount, lastCount).Some? ==>
            var n := DropsToAnimate(currentCount, lastCount).value;
            1 <= n <= IncrementCap && n <= v.increment && (v.increment <= IncrementCap ==> n == v.increment))
  {
  }

  /** The popup and the content script agree on the drops to animate for the same counts. */
  lemma DropsAgreeWithPage(s: BrainJug.JugState, lastJugCount: Option<nat>)
    ensures var last := lastJugCount.GetOr(0);
      DropsToAnimate(s.drops, last).GetOr(0) == BrainJug.Show(s, lastJugCount).1
  {
  }

  /** Each live update the page sends while the popup is open shows a growth of one drop and
      animates one drop. */
  lemma LiveUpdatesShowOne(s: BrainJug.JugState, entries: seq<BrainJug.Entry>, k: nat)
    requires k < |BrainJug.Updates(s, entries, |entries|)|
    ensures var u := BrainJug.Updates(s, entries, |entries|)[k];
      && CountUpdate(u.count, u.lastCount) == IncrementView(u.lastCount, 1, u.count)
      && DropsToAnimate(u.count, u.lastCount) == Some(1)
  {
    BrainJug.UpdatesCount(s, entries, |entries|);
  }

  /** The brain jug block of the popup. */
  class JugDisplay {
    var mainCount: int
    var increment: Option<int>
    var progress: Progress
    var classes: set<string>

    constructor ()
      ensures mainCount == 0 && increment == None && progress == StartJourney && classes == {}
    {
      mainCount := 0;
      increment := None;
      progress := StartJourney;
      classes := {};
    }

    /** `updateBrainJugCount`; `celebrated` tells whether the goal message was shown. */
    method UpdateBrainJugCount(count: int, isOffline: bool, isNewDay: bool) returns (celebrated: bool)
      modifies this
      ensures mainCount == count && increment == old(increment)
      ensures progress == ProgressMessage(count, isOffline, isNewDay)
      ensures classes == StyleClasses(old(classes), count, isOffline, isNewDay)
      ensures celebrated <==> count >= Goal
    {
      mainCount := count;
      var percentage := Percentage(count);
      if isOffline {
        progress := OfflineMode;
      } else if isNewDay && count == 0 {
        progress := NewDayStart;
      } else if percentage == 0 {
        progress := StartJourney;
      } else if percentage < 25 {
        progress := EarlyProgress(percentage);
      } else if percentage < 50 {
        progress := KeepGoing(percentage);
      } else if percentage < 75 {
        progress := Halfway(percentage);
      } else if percentage < 100 {
        progress := AlmostThere(percentage);
      } else {
        progress := GoalAchieved;
      }
      celebrated := false;
      if count >= Goal {
        classes := classes + {"full"};
        if percentage == 100 {
          celebrated := true;
        }
      } else {
        classes := classes - {"full"};
      }
      if isOffline {
        classes := classes + {"offline"};
      } else {
        classes := classes - {"offline"};
      }
      if isNewDay {
        classes := classes + {"new-day"};
      } else {
        classes := classes - {"new-day"};
      }
    }

    /** `showIncrementThenTotal` up to its timer: a growth shows the old count and `+increment`
        and returns the `lastJugCount` to store; otherwise the total is shown at once. */
    method ShowIncrementThenTotal(currentCount: int, lastCount: int) returns (stored: Option<int>)
      modifies this
      ensures stored == StoredLastCount(currentCount, lastCount)
      ensures match CountUpdate(currentCount, lastCount)
        case IncrementView(from, inc, _) =>
          mainCount == from && increment == Some(inc) && progress == old(progress) && classes == old(classes)
        case TotalView(count) =>
          && mainCount == count && increment == old(increment)
          && progress == ProgressMessage(count, false, false)
          && classes == StyleClasses(old(classes), count, false, false)
    {
      var inc := currentCount - lastCount;
      if inc > 0 {
        mainCount := lastCount;
        increment := Some(inc);
        stored := Some(currentCount);
      } else {
        var _ := UpdateBrainJugCount(currentCount, false, false);
        stored := None;
      }
    }

    /** The increment's timer: the increment is hidden and the count animates to its total,
        whose last frame is the total and its message. */
    method IncrementDone(finalCount: int)
      modifies this
      ensures increment == None && mainCount == finalCount
      ensures progress == Tier(Percentage(finalCount)) && classes == old(classes)
    {
      increment := None;
      mainCount := finalCount;
      progress := Tier(Percentage(finalCount));
    }

    /** The `BRAIN_JUG_UPDATE` message: `stored` is the `lastJugCount` written and `drops` the
        drops the page is asked to animate. */
    method OnJugUpdate(message: BrainJug.JugUpdate) returns (stored: Option<int>, drops: Option<int>)
      modifies this
      ensures stored == StoredLastCount(message.count, message.lastCount)
      ensures drops == DropsToAnimate(message.count, message.lastCount)
      ensures message.count > message.lastCount ==>
        mainCount == message.lastCount && increment == Some(message.count - message.lastCount)
      ensures message.count <= message.lastCount ==>
        mainCount == old(mainCount) && increment == old(increment)
      ensures progress == old(progress) && classes == old(classes)
    {
      var inc := message.count - message.lastCount;
      if inc > 0 {
        mainCount := message.lastCount;
        increment := Some(inc);
        stored := Some(message.count);
        drops := Some(if inc < IncrementCap then inc else IncrementCap);
      } else {
        stored := None;
        drops := None;
      }
    }
  }

  // ---------------------------------------------------------------------------------------------
  // The replacement list

  /** Some(the strings) when every item is a string. */
  function JsonStrings(items: seq<Json>): (r: Option<seq<string>>)
    ensures r.Some? <==> forall i :: 0 <= i < |items| ==> items[i].JStr?
    ensures r.Some? ==> |r.value| == |items| && forall i :: 0 <= i < |items| ==> JStr(r.value[i]) == items[i]
  {
    if items == [] then Some([])
    else if !items[0].JStr? then None
    else match JsonStrings(items[1..])
      case None => None
      case Some(rest) => Some([items[0].s] + rest)
  }

  /** The rule's `original` as stored: a string is one concept, an array of strings a list. */
  function StoredOriginal(v: Json): Option<Original> {
    match v
    case JStr(s) => Some(Concept(s))
    case JArr(items) => (match JsonStrings(items) case Some(cs) => Some(Concepts(cs)) case None => None)
    case _ => None
  }

  /** `result.originalConcepts || (result.originalConcept ? [result.originalConcept] : [])`. */
  function ReplyOriginal(result: Json): Option<Original> {
    var concepts := Get(result, "originalConcepts");
    if Background.Present(concepts) then StoredOriginal(concepts.value)
    else
      var concept := Get(result, "originalConcept");
      if Background.Present(concept) then StoredOriginal(JArr([concept.value]))
      else Some(Concepts([]))
  }

  /** How an add ends. */
  datatype AddStatus = EmptyWord | ExtractionError | ExtractionFailed | UnstoredConcepts | Added

  /** The add handler on the typed word and the service's reply (`None` when the message
      rejects or gets no reply, so that reading `result.error` throws). */
  function AddOutcome(input: string, reply: Option<Json>): AddStatus {
    if Trim(input) == [] then EmptyWord
    else if reply.None? || reply.value.JNull? then ExtractionError
    else if HasTruthy(reply.value, "error") then ExtractionFailed
    else if ReplyOriginal(reply.value).None? then UnstoredConcepts
    else Added
  }

  /** The rule an accepted add appends. */
  function NewRule(id: string, input: string, reply: Option<Json>): Rule
    requires AddOutcome(input, reply) == Added
  {
    Rule(id, ReplyOriginal(reply.value).value, Trim(input))
  }

  /** A blank word is refused before the service is asked; an added rule's replacement is the
      trimmed, non-empty word. */
  lemma AddOutcomeFacts(input: string, reply: Option<Json>, id: string)
    ensures AddOutcome(input, reply) == EmptyWord <==> IsBlank(input)
    ensures AddOutcome(input, reply) == Added ==>
      NewRule(id, input, reply).replacement != [] && Trim(NewRule(id, input, reply).replacement) == NewRule(id, input, reply).replacement
  {
    TrimEmptyIffBlank(input);
    TrimIdempotent(input);
  }

  /** The array form of a reply wins over the single concept, and a reply with neither gives a
      rule with no concepts. */
  lemma ReplyOriginalCases(cs: seq<string>, c: string)
    ensures ReplyOriginal(JObj(map["originalConcepts" := JArr(seq(|cs|, i requires 0 <= i < |cs| => JStr(cs[i]))), "originalConcept" := JStr(c)]))
         == Some(Concepts(cs))
    ensures c != [] ==> ReplyOriginal(JObj(map["originalConcept" := JStr(c)])) == Some(Concepts([c]))
    ensures ReplyOriginal(JObj(map[])) == Some(Concepts([]))
  {
    var items := seq(|cs|, i requires 0 <= i < |cs| => JStr(cs[i]));
    assert JsonStrings(items).value == cs;
    var one := JsonStrings([JStr(c)]);
    assert one.Some? && |one.value| == 1 && JStr(one.value[0]) == [JStr(c)][0];
    assert one.value[0] == c;
    assert one.value == [c];
    assert Get(JObj(map["originalConcept" := JStr(c)]), "originalConcepts") == None;
  }

  /** Every rule with the given id removed, the rest kept in order. */
  function Without(rules: seq<Rule>, id: string): seq<Rule> {
    if rules == [] then []
    else if rules[0].id == id then Without(rules[1..], id)
    else [rules[0]] + Without(rules[1..], id)
  }

  /** Removal keeps exactly the rules with another id. */
  lemma {:induction false} WithoutMembers(rules: seq<Rule>, id: string)
    ensures forall r :: r in Without(rules, id) <==> r in rules && r.id != id
  {
    if rules != [] {
      WithoutMembers(rules[1..], id);
      assert rules == [rules[0]] + rules[1..];
    }
  }

  /** Removal works rule by rule, so it keeps the order of the rest. */
  lemma {:induction false} WithoutAppend(a: seq<Rule>, b: seq<Rule>, id: string)
    ensures Without(a + b, id) == Without(a, id) + Without(b, id)
  {
    if a != [] {
      assert (a + b)[1..] == a[1..] + b;
      WithoutAppend(a[1..], b, id);
    } else {
      assert a + b == b;
    }
  }

  /** Removing an id no rule has changes nothing, and removal is idempotent. */
  lemma {:induction false} WithoutAbsent(rules: seq<Rule>, id: string)
    requires forall i :: 0 <= i < |rules| ==> rules[i].id != id
    ensures Without(rules, id) == rules
  {
    if rules != [] {
      WithoutAbsent(rules[1..], id);
      assert rules == [rules[0]] + rules[1..];
    }
  }

  lemma WithoutIdempotent(rules: seq<Rule>, id: string)
    ensures Without(Without(rules, id), id) == Without(rules, id)
  {
    var w := Without(rules, id);
    WithoutMembers(rules, id);
    forall i | 0 <= i < |w| ensures w[i].id != id {
      assert w[i] in w;
    }
    WithoutAbsent(w, id);
  }

  /** Removing a just-added rule by its fresh id restores the list. */
  lemma RemoveUndoesAdd(rules: seq<Rule>, rule: Rule)
    requires forall i :: 0 <= i < |rules| ==> rules[i].id != rule.id
    ensures Without(rules + [rule], rule.id) == rules
  {
    WithoutAppend(rules, [rule], rule.id);
    WithoutAbsent(rules, rule.id);
    assert Without([rule], rule.id) == [];
  }

  /** The strings of concepts that are all present. */
  function Values(cs: seq<Option<string>>): (r: seq<string>)
    requires forall i :: 0 <= i < |cs| ==> cs[i].Some?
    ensures |r| == |cs| && forall i :: 0 <= i < |cs| ==> r[i] == cs[i].value
  {
    seq(|cs|, i requires 0 <= i < |cs| => cs[i].value)
  }

  lemma ExtractedItems(cs: seq<Option<string>>)
    requires forall i :: 0 <= i < |cs| ==> cs[i].Some?
    ensures var items := seq(|cs|, i requires 0 <= i < |cs| => if cs[i].Some? then JStr(cs[i].value) else JNull);
      JsonStrings(items) == Some(Values(cs))
  {
    var items := seq(|cs|, i requires 0 <= i < |cs| => if cs[i].Some? then JStr(cs[i].value) else JNull);
    var r := JsonStrings(items);
    assert r.Some?;
    assert r.value == Values(cs);
  }

  /** The reply to a successful extraction reads back as its concepts. */
  lemma ReplyOfExtracted(cs: seq<Option<string>>)
    requires forall i :: 0 <= i < |cs| ==> cs[i].Some?
    ensures var reply := Background.ExtractReply(Background.Extracted(cs));
      !reply.JNull? && !HasTruthy(reply, "error") && ReplyOriginal(reply) == Some(Concepts(Values(cs)))
  {
    ExtractedItems(cs);
    var items := seq(|cs|, i requires 0 <= i < |cs| => if cs[i].Some? then JStr(cs[i].value) else JNull);
    var reply := Background.ExtractReply(Background.Extracted(cs));
    assert Get(reply, "originalConcepts") == Some(JArr(items));
    assert Truthy(JArr(items));
  }

  /** The reply to a failed extraction carries a truthy `error`. */
  lemma ReplyOfFailed(e: Background.ServiceError)
    ensures HasTruthy(Background.ExtractReply(Background.ExtractFailed(e)), "error")
  {
    assert Truthy(JStr("Failed to extract concept"));
  }

  /** The add handler on the reply to an extraction outcome whose concepts are all good. */
  lemma AddOfOutcome(input: string, o: Background.ExtractOutcome, id: string)
    requires Trim(input) != []
    requires o.Extracted? ==>
      |o.concepts| > 0 && forall i :: 0 <= i < |o.concepts| ==> Background.GoodConcept(o.concepts[i], Trim(input))
    ensures var reply := Some(Background.ExtractReply(o));
      && (o.ExtractFailed? <==> AddOutcome(input, reply) == ExtractionFailed)
      && (o.Extracted? ==> AddOutcome(input, reply) == Added)
      && (o.Extracted? ==>
            var cs := ConceptList(NewRule(id, input, reply).original);
            |cs| > 0 && |cs| == |o.concepts|
            && forall i :: 0 <= i < |cs| ==> Background.GoodConcept(Some(cs[i]), Trim(input)))
  {
    match o
    case ExtractFailed(e) => ReplyOfFailed(e);
    case Extracted(cs) =>
      assert forall i :: 0 <= i < |cs| ==> cs[i].Some?;
      ReplyOfExtracted(cs);
  }

  /** Adding a word whose extraction succeeds appends a rule with at least one concept, each a
      trimmed non-empty string or the word; a failed extraction adds nothing. */
  lemma AddAfterExtraction(input: string, apiKey: Option<string>,
                           respond: Background.ApiRequest -> Background.HttpResponse,
                           parse: string -> Background.Parsed, id: string)
    requires Trim(input) != []
    ensures var o := Background.ExtractConcepts(Trim(input), apiKey, respond, parse);
      var reply := Some(Background.ExtractReply(o));
      && (o.ExtractFailed? <==> AddOutcome(input, reply) == ExtractionFailed)
      && (o.Extracted? ==> AddOutcome(input, reply) == Added)
      && (o.Extracted? ==>
            var cs := ConceptList(NewRule(id, input, reply).original);
            |cs| > 0 && |cs| == |o.concepts|
            && forall i :: 0 <= i < |cs| ==> Background.GoodConcept(Some(cs[i]), Trim(input)))
  {
    Background.ExtractConceptsGood(Trim(input), apiKey, respond, parse);
    AddOfOutcome(input, Background.ExtractConcepts(Trim(input), apiKey, respond, parse), id);
  }

  // ---------------------------------------------------------------------------------------------
  // Processed tabs

  /** `processedTabs[tabId] = true`. */
  function Marked(marks: map<int, bool>, tabId: int): map<int, bool> {
    marks[tabId := true]
  }

  /** `delete processedTabs[tabId]`. */
  function Cleared(marks: map<int, bool>, tabId: int): map<int, bool> {
    marks - {tabId}
  }

  /** `processedTabs[tab.id] || false`. */
  predicate Processed(marks: map<int, bool>, tabId: int) {
    tabId in marks && marks[tabId]
  }

  /** A mark makes the tab read as processed and a navigation clears it; neither touches another
      tab, and marking twice is marking once. */
  lemma MarksFacts(marks: map<int, bool>, tabId: int, other: int)
    ensures Processed(Marked(marks, tabId), tabId)
    ensures !Processed(Cleared(marks, tabId), tabId)
    ensures other != tabId ==> Processed(Marked(marks, tabId), other) == Processed(marks, other)
    ensures other != tabId ==> Processed(Cleared(marks, tabId), other) == Processed(marks, other)
    ensures Marked(Marked(marks, tabId), tabId) == Marked(marks, tabId)
  {
  }

  /** The `processedTabs` record of local storage. */
  class ProcessedTabs {
    var marks: map<int, bool>

    /** `result.processedTabs || {}`. */
    constructor (stored: Option<map<int, bool>>)
      ensures marks == stored.GetOr(map[])
    {
      marks := stored.GetOr(map[]);
    }

    method Mark(tabId: int)
      modifies this
      ensures marks == Marked(old(marks), tabId)
    {
      marks := marks[tabId := true];
    }

    /** The `PROCESSING_COMPLETE` message: the sender's tab, when there is one, is marked. */
    method OnProcessingComplete(senderTab: Option<int>)
      modifies this
      ensures marks == if senderTab.Some? then Marked(old(marks), senderTab.value) else old(marks)
    {
      if senderTab.Some? {
        Mark(senderTab.value);
      }
    }

    /** `chrome.tabs.onUpdated`: a tab that starts loading loses its mark. */
    method OnTabUpdated(tabId: int, status: string)
      modifies this
      ensures marks == if status == "loading" then Cleared(old(marks), tabId) else old(marks)
    {
      if status == "loading" {
        marks := marks - {tabId};
      }
    }
  }

  /** The process button's two classes: `processed` and `auto-process-enabled`. */
  datatype ButtonState = ButtonState(processed: bool, autoProcessEnabled: bool)

  function ProcessButton(marks: map<int, bool>, tabId: int, autoProcess: Option<Json>): (b: ButtonState)
    ensures b.processed <==> Processed(marks, tabId)
    ensures b.autoProcessEnabled <==> Background.Present(autoProcess)
  {
    ButtonState(Processed(marks, tabId), Background.Present(autoProcess))
  }

  /** The button follows the tab marks: marking the tab shows it processed, a navigation clears
      that, and neither changes what another tab's button shows or the auto-process badge. */
  lemma ProcessButtonFollowsMarks(marks: map<int, bool>, tabId: int, other: int, autoProcess: Option<Json>)
    ensures ProcessButton(Marked(marks, tabId), tabId, autoProcess).processed
    ensures !ProcessButton(Cleared(marks, tabId), tabId, autoProcess).processed
    ensures other != tabId ==> ProcessButton(Marked(marks, tabId), other, autoProcess) == ProcessButton(marks, other, autoProcess)
    ensures other != tabId ==> ProcessButton(Cleared(marks, tabId), other, autoProcess) == ProcessButton(marks, other, autoProcess)
    ensures ProcessButton(Marked(marks, tabId), tabId, autoProcess).autoProcessEnabled
        == ProcessButton(marks, tabId, autoProcess).autoProcessEnabled
  {
    MarksFacts(marks, tabId, other);
  }

  // ---------------------------------------------------------------------------------------------
  // The process button

  /** How a click on the process button ends. */
  datatype ProcessOutcome = NoReplacements | NoApiKey | CannotProcess | ScriptFailed | ProcessSent

  /** The messages sent to the tab. */
  datatype TabMessage = ShowMainTextPopup | ProcessPageText(replacements: seq<Rule>)

  /** The checks in order: rules, then the API key, then the page, then the script injection. */
  function ProcessClick(replacements: seq<Rule>, apiKey: Option<string>, url: string, injected: bool): ProcessOutcome {
    if |replacements| == 0 then NoReplacements
    else if !Background.KeySet(apiKey) then NoApiKey
    else if !IsValidPage(url) then CannotProcess
    else if !injected then ScriptFailed
    else ProcessSent
  }

  /** Work is sent exactly when there are rules, a key, an accepted page and an injected script. */
  lemma ProcessClickSends(replacements: seq<Rule>, apiKey: Option<string>, url: string, injected: bool)
    ensures ProcessClick(replacements, apiKey, url, injected) == ProcessSent
        <==> replacements != [] && Background.KeySet(apiKey) && IsValidPage(url) && injected
  {
  }

  // ---------------------------------------------------------------------------------------------
  // The auto-process setting

  /** The `autoProcess` values of sync and local storage. */
  datatype AutoStores = AutoStores(sync: Option<Json>, local: Option<Json>)

  /** The checkbox as written: `result.autoProcess || localResult.autoProcess || false`. */
  predicate AutoProcessAsWritten(sync: Option<Json>, local: Option<Json>) {
    Background.Present(sync) || Background.Present(local)
  }

  /** The storage sync that follows: a sync value is copied to local storage, otherwise a local
      value to sync storage. */
  function Reconcile(sync: Option<Json>, local: Option<Json>): (r: AutoStores)
    ensures r.sync == r.local
    ensures r.sync == if sync.Some? then sync else local
  {
    if sync.Some? then AutoStores(sync, sync)
    else if local.Some? then AutoStores(local, local)
    else AutoStores(None, None)
  }

  /** As written, a sync value `false` falls through to a local `true`: the checkbox shows the
      setting on while the sync that follows writes `false` to both storages. */
  lemma AutoProcessAsWrittenDisagrees()
    ensures var sync, local := Some(JBool(false)), Some(JBool(true));
      && AutoProcessAsWritten(sync, local)
      && !AutoProcessAsWritten(Reconcile(sync, local).sync, Reconcile(sync, local).local)
  {
  }

  /** The checkbox as the comment intends, preferring sync storage: the first stored value
      (a stored `null` counts, as in `Reconcile`), read as a boolean. */
  predicate AutoProcessPreferred(sync: Option<Json>, local: Option<Json>) {
    if sync.Some? then Truthy(sync.value)
    else if local.Some? then Truthy(local.value)
    else false
  }

  /** The preferred reading shows what both storages hold after the sync, so opening the popup
      again shows the same; it differs from the source only when sync holds a falsy value. */
  lemma AutoProcessPreferredAgrees(sync: Option<Json>, local: Option<Json>)
    ensures var r := Reconcile(sync, local);
      && AutoProcessPreferred(sync, local) == Background.Present(r.local)
      && AutoProcessPreferred(r.sync, r.local) == AutoProcessPreferred(sync, local)
      && Reconcile(r.sync, r.local) == r
    ensures (sync.None? || Truthy(sync.value)) ==> AutoProcessPreferred(sync, local) == AutoProcessAsWritten(sync, local)
  {
  }

  /** The change handler writes the checkbox to both storages; loading reads it back. */
  function AutoProcessSaved(checked: bool): (r: AutoStores)
    ensures AutoProcessPreferred(r.sync, r.local) == checked
    ensures AutoProcessAsWritten(r.sync, r.local) == checked
    ensures Reconcile(r.sync, r.local) == r
  {
    AutoStores(Some(JBool(checked)), Some(JBool(checked)))
  }

  // ---------------------------------------------------------------------------------------------
  // The popup's own state

  class PopupPage {
    var replacements: seq<Rule>
    var autoProcessChecked: bool

    /** `loadReplacements`: `result.replacements || []`. */
    constructor (stored: Option<seq<Rule>>)
      ensures replacements == stored.GetOr([]) && !autoProcessChecked
    {
      replacements := stored.GetOr([]);
      autoProcessChecked := false;
    }

    /** The add button, given the typed word, the service's reply and the new rule's id
        (`Date.now().toString()`). */
    method AddReplacement(input: string, reply: Option<Json>, id: string) returns (status: AddStatus)
      modifies this
      ensures status == AddOutcome(input, reply)
      ensures replacements == if status == Added then old(replacements) + [NewRule(id, input, reply)] else old(replacements)
      ensures autoProcessChecked == old(autoProcessChecked)
    {
      var replacement := Trim(input);
      if replacement == [] {
        return EmptyWord;
      }
      if reply.None? || reply.value.JNull? {
        return ExtractionError;
      }
      var result := reply.value;
      if HasTruthy(result, "error") {
        return ExtractionFailed;
      }
      var original := ReplyOriginal(result);
      if original.None? {
        return UnstoredConcepts;
      }
      replacements := replacements + [Rule(id, original.value, replacement)];
      status := Added;
    }

    /** `removeReplacement`. */
    method RemoveReplacement(id: string)
      modifies this
      ensures replacements == Without(old(replacements), id)
      ensures autoProcessChecked == old(autoProcessChecked)
    {
      replacements := Without(replacements, id);
    }

    /** `loadAutoProcessSetting`, preferring the sync value; `stores` is what both storages hold
        afterwards. */
    method LoadAutoProcessSetting(sync: Option<Json>, local: Option<Json>) returns (stores: AutoStores)
      modifies this
      ensures autoProcessChecked == AutoProcessPreferred(sync, local)
      ensures stores == Reconcile(sync, local)
      ensures replacements == old(replacements)
    {
      if sync.Some? {
        autoProcessChecked := Truthy(sync.value);
        stores := AutoStores(sync, sync);
      } else if local.Some? {
        autoProcessChecked := Truthy(local.value);
        stores := AutoStores(local, local);
      } else {
        autoProcessChecked := false;
        stores := AutoStores(None, None);
      }
    }

    /** The process button: the checks, the two messages to the tab, and the tab's mark. */
    method ProcessPage(tabs: ProcessedTabs, apiKey: Option<string>, url: string, tabId: int, injected: bool)
        returns (outcome: ProcessOutcome, sent: seq<TabMessage>)
      modifies tabs
      ensures outcome == ProcessClick(replacements, apiKey, url, injected)
      ensures sent == if outcome == ProcessSent then [ShowMainTextPopup, ProcessPageText(replacements)] else []
      ensures tabs.marks == if outcome == ProcessSent then Marked(old(tabs.marks), tabId) else old(tabs.marks)
    {
      sent := [];
      if |replacements| == 0 {
        return NoReplacements, sent;
      }
      if !Background.KeySet(apiKey) {
        return NoApiKey, sent;
      }
      if !IsValidPage(url) {
        return CannotProcess, sent;
      }
      if !injected {
        return ScriptFailed, sent;
      }
      sent := [ShowMainTextPopup, ProcessPageText(replacements)];
      tabs.Mark(tabId);
      outcome := ProcessSent;
    }
  }
}
