/**
 * The activities of src/win32app/activities.cpp: one Activity per loaded
 * tab, registered in the static map activities_by_tab. Creating one may
 * unload old activities; a clicked link becomes a new tab related to this
 * one; an address typed by the user is tried as a URL, then as "http://"
 * plus the address, then as a search. The WebView2 control, the database
 * queries (tab data, windows, last visited tabs) and create_tab are inputs.
 */
module Activities {
  import opened Wrappers
  import Text
  import TabTable

  type Byte = Text.Byte

  /** What the eviction loop reads from get_tab_data: visited_at and whether starred_at is set. */
  datatype TabInfo = TabInfo(visitedAt: int, starred: bool)

  /** The relation a new tab has to the tab it was opened from (TabRelation). */
  datatype Relation = Before | After | FirstChild | LastChild

  /** The tabs that may not be unloaded: the new activity's own, the windows' focused tabs, the last visited. */
  function KeepLoaded(self: int, focused: set<int>, recent: seq<int>): (keep: set<int>)
    ensures self in keep && focused <= keep
    ensures forall k :: 0 <= k < |recent| ==> recent[k] in keep
  {
    {self} + focused + set k | 0 <= k < |recent| :: recent[k]
  }

  /** A tab whose activity may be unloaded: not kept, and visited at some time. */
  predicate Candidate(info: map<int, TabInfo>, keep: set<int>, t: int)
  {
    t !in keep && t in info && info[t].visitedAt != 0
  }

  function Candidates(keys: set<int>, info: map<int, TabInfo>, keep: set<int>): (c: set<int>)
    ensures c <= keys
    ensures forall t :: t in c <==> t in keys && Candidate(info, keep, t)
  {
    set t | t in keys && Candidate(info, keep, t)
  }

  /**
   * The order in which the loop means to choose victims ("last unstarred
   * tab or last starred tab"): unstarred before starred, then earlier
   * visited first, then, as the map is scanned in ascending order, the
   * smaller tab id.
   */
  predicate Better(info: map<int, TabInfo>, c: int, v: int)
    requires c in info && v in info
  {
    var ci, vi := info[c], info[v];
    (!ci.starred && vi.starred)
    || (ci.starred == vi.starred && (ci.visitedAt < vi.visitedAt || (ci.visitedAt == vi.visitedAt && c < v)))
  }

  /** v is the victim among cs: no candidate is better. */
  predicate IsVictim(info: map<int, TabInfo>, cs: set<int>, v: int)
    requires cs <= info.Keys
  {
    v in cs && forall c :: c in cs && c != v ==> !Better(info, c, v)
  }

  /** The victim is unique: whatever the scan order, there is one answer. */
  lemma VictimUnique(info: map<int, TabInfo>, cs: set<int>, v: int, w: int)
    requires cs <= info.Keys
    requires IsVictim(info, cs, v) && IsVictim(info, cs, w)
    ensures v == w
  {
  }

  /** The order is transitive, so a candidate better than the new victim is better than the old. */
  lemma BetterTransitive(info: map<int, TabInfo>, a: int, b: int, c: int)
    requires a in info && b in info && c in info
    requires Better(info, a, b) && Better(info, b, c)
    ensures Better(info, a, c)
  {
  }

  /**
   * One candidate k, larger than every id scanned so far, replaces the
   * victim exactly when it is better: the victim of the scanned ids stays
   * the victim once k is scanned.
   */
  lemma VictimStep(info: map<int, TabInfo>, keep: set<int>, done: set<int>, k: int, v0: Option<int>, v1: Option<int>)
    requires forall d :: d in done ==> d < k
    requires v0.None? <==> Candidates(done, info, keep) == {}
    requires v0.Some? ==> IsVictim(info, Candidates(done, info, keep), v0.value)
    requires !Candidate(info, keep, k) ==> v1 == v0
    requires Candidate(info, keep, k) && v0.None? ==> v1 == Some(k)
    requires Candidate(info, keep, k) && v0.Some? ==>
      var ci, vi := info[k], info[v0.value];
      v1 == if (!ci.starred && vi.starred) || (ci.starred == vi.starred && ci.visitedAt < vi.visitedAt)
            then Some(k) else v0
    ensures v1.None? <==> Candidates(done + {k}, info, keep) == {}
    ensures v1.Some? ==> IsVictim(info, Candidates(done + {k}, info, keep), v1.value)
  {
    var cs, cs' := Candidates(done, info, keep), Candidates(done + {k}, info, keep);
    if !Candidate(info, keep, k) {
      assert cs' == cs;
    } else {
      assert cs' == cs + {k};
      if v0.Some? {
        var v := v0.value;
        if v1 == Some(k) {
          assert Better(info, k, v);
          forall c | c in cs' && c != k
            ensures !Better(info, c, k)
          {
            if Better(info, c, k) {
              BetterTransitive(info, c, k, v);
            }
          }
        } else {
          assert !Better(info, k, v);
        }
      }
    }
  }

  /** Moving the least unscanned id k to the scanned ones keeps the scan in ascending order. */
  lemma ScanAdvance(keys: set<int>, rest: set<int>, done: set<int>, k: int)
    requires rest + done == keys && rest !! done && k in rest
    requires forall d, r :: d in done && r in rest ==> d < r
    requires forall j :: j in rest ==> k <= j
    ensures (rest - {k}) + (done + {k}) == keys && (rest - {k}) !! (done + {k})
    ensures forall d, r :: d in done + {k} && r in rest - {k} ==> d < r
    ensures forall d :: d in done ==> d < k
  {
  }

  /** An activity: the tab it belongs to, and the state click_link and navigation keep. */
  class Activity {
    const tab: int
    var hasWebview: bool
    var lastCreatedNewChild: int
    var navigatedUrl: seq<Byte>

    /**
     * The constructor: registers the new activity under its tab (the tab
     * must have none yet), then unloads old activities. The webview it
     * requests arrives later and is not part of this model.
     */
    constructor (t: int, reg: Activities, info: map<int, TabInfo>, focused: set<int>, recent: seq<int>)
      requires reg.Valid() && t !in reg.byTab
      requires reg.byTab.Keys + {t} <= info.Keys && |recent| <= 20
      modifies reg
      ensures reg.Valid() && fresh(this) && tab == t
      ensures t in reg.byTab && reg.byTab[t] == this
      ensures reg.byTab.Keys <= old(reg.byTab.Keys) + {t}
      ensures forall k :: k in old(reg.byTab) && k in reg.byTab ==> reg.byTab[k] == old(reg.byTab[k])
      ensures forall k :: k in old(reg.byTab) && k !in reg.byTab ==> Candidate(info, KeepLoaded(t, focused, recent), k)
      ensures |reg.byTab| <= 80 || Candidates(reg.byTab.Keys, info, KeepLoaded(t, focused, recent)) == {}
      ensures |old(reg.byTab)| < 80 ==> reg.byTab == old(reg.byTab)[t := this]
      ensures |old(reg.byTab)| >= 80 ==> |reg.byTab| >= 80
    {
      tab := t;
      hasWebview := false;
      lastCreatedNewChild := 0;
      navigatedUrl := [];
      new;
      reg.Insert(this);
      reg.EvictOld(t, info, focused, recent);
    }

    /**
     * click_link with button 1: a double click focuses the last child this
     * activity created (if any and if shown in a window); otherwise a new
     * tab is created with the relation the modifiers choose, and its id,
     * created, becomes the last created child.
     */
    method ClickLink(button: int, doubleClick: bool, shift: bool, alt: bool, hasWindow: bool, created: int)
      returns (action: ClickAction)
      modifies this
      ensures action == ClickActionFor(button, doubleClick, shift, alt, lastCreatedNewChild, hasWindow)
      ensures lastCreatedNewChild == (if action.Create? then created else old(lastCreatedNewChild))
      ensures hasWebview == old(hasWebview) && navigatedUrl == old(navigatedUrl)
    {
      action := Nothing;
      if button == 1 {
        if doubleClick {
          if lastCreatedNewChild != 0 && hasWindow {
            action := Focus(lastCreatedNewChild);
          }
        } else if alt && shift {
          action := Create(Before);
          lastCreatedNewChild := created;
        } else if alt {
          action := Create(After);
          lastCreatedNewChild := created;
        } else if shift {
          action := Create(FirstChild);
          lastCreatedNewChild := created;
        } else {
          action := Create(LastChild);
          lastCreatedNewChild := created;
        }
      }
    }

    /** navigate_url: asks the webview; on success the address is remembered as navigated_url. */
    method NavigateUrl(address: seq<Byte>, webview: seq<Byte> -> NavResult) returns (r: NavResult)
      modifies this
      ensures r == webview(address)
      ensures navigatedUrl == (if r == Succeeded then address else old(navigatedUrl))
      ensures hasWebview == old(hasWebview) && lastCreatedNewChild == old(lastCreatedNewChild)
    {
      r := webview(address);
      if r == Succeeded {
        navigatedUrl := address;
      }
    }

    /** navigate_search: the search URL must be accepted, or the assertion aborts. */
    method NavigateSearch(search: seq<Byte>, webview: seq<Byte> -> NavResult) returns (outcome: Outcome)
      modifies this
      ensures outcome == SearchOutcome(search, webview)
      ensures navigatedUrl == (if outcome.Navigated? then outcome.url else old(navigatedUrl))
      ensures hasWebview == old(hasWebview) && lastCreatedNewChild == old(lastCreatedNewChild)
    {
      var escaped := Text.EscapeUrl(search);
      var url := SearchPrefix + escaped;
      assert url == SearchUrl(search);
      var r := NavigateUrl(url, webview);
      outcome := if r == Succeeded then Navigated(url) else Aborted;
    }

    /**
     * navigate_url_or_search: with no webview the address is only recorded
     * as the tab's URL; otherwise the first of the address, "http://" plus
     * the address and the search URL that the webview accepts is loaded.
     */
    method NavigateUrlOrSearch(address: seq<Byte>, webview: seq<Byte> -> NavResult) returns (outcome: Outcome)
      modifies this
      ensures outcome == NavigateOutcome(address, old(hasWebview), webview)
      ensures navigatedUrl == (if outcome.Navigated? then outcome.url else old(navigatedUrl))
      ensures hasWebview == old(hasWebview) && lastCreatedNewChild == old(lastCreatedNewChild)
    {
      if hasWebview {
        var r := NavigateUrl(address, webview);
        if r == Succeeded {
          return Navigated(address);
        } else if r == Failed {
          return Aborted;
        }
        if ' ' in address || '.' !in address {
          outcome := NavigateSearch(address, webview);
        } else {
          var url := HttpPrefix + address;
          r := NavigateUrl(url, webview);
          if r == Succeeded {
            return Navigated(url);
          } else if r == Failed {
            return Aborted;
          }
          outcome := NavigateSearch(address, webview);
        }
      } else {
        outcome := Recorded(address);
      }
    }
  }

  /** activities_by_tab, with the operations on it. */
  class Activities {
    var byTab: map<int, Activity>

    /** Every activity is registered under its own tab. */
    ghost predicate Valid()
      reads this
    {
      forall t :: t in byTab ==> byTab[t].tab == t
    }

    constructor ()
      ensures Valid() && byTab == map[]
    {
      byTab := map[];
    }

    /** activity_for_tab: the tab's activity, or null. */
    function ActivityForTab(t: int): (a: Activity?)
      reads this
      ensures a != null <==> t in byTab
      ensures a != null ==> a == byTab[t]
    {
      if t in byTab then byTab[t] else null
    }

    /** The emplace in the constructor, after asserting the tab has no activity. */
    method Insert(a: Activity)
      requires Valid() && a.tab !in byTab
      modifies this
      ensures Valid() && byTab == old(byTab)[a.tab := a]
    {
      byTab := byTab[a.tab := a];
    }

    /** The destructor's erase of the activity's entry. */
    method Remove(t: int)
      requires Valid()
      modifies this
      ensures Valid() && byTab == old(byTab) - {t}
    {
      byTab := byTab - {t};
    }

    /**
     * ensure_activity_for_tab: the existing activity, or exactly one new
     * one (whose constructor may unload others).
     */
    method EnsureActivityForTab(t: int, info: map<int, TabInfo>, focused: set<int>, recent: seq<int>)
      returns (a: Activity)
      requires Valid() && byTab.Keys + {t} <= info.Keys && |recent| <= 20
      modifies this
      ensures Valid() && t in byTab && byTab[t] == a && a.tab == t
      ensures t in old(byTab) ==> a == old(byTab[t]) && byTab == old(byTab)
      ensures t !in old(byTab) ==> fresh(a) && byTab.Keys <= old(byTab.Keys) + {t}
    {
      if t in byTab {
        a := byTab[t];
      } else {
        a := new Activity(t, this, info, focused, recent);
      }
    }

    /**
     * The for loop over activities_by_tab, in ascending tab order: the
     * victim is replaced by a candidate that is unstarred while the victim
     * is starred, or equally starred and visited earlier.
     */
    method FindVictim(info: map<int, TabInfo>, keep: set<int>) returns (victim: Option<int>)
      requires byTab.Keys <= info.Keys
      ensures victim.None? <==> Candidates(byTab.Keys, info, keep) == {}
      ensures victim.Some? ==> IsVictim(info, Candidates(byTab.Keys, info, keep), victim.value)
    {
      var rest := byTab.Keys;
      ghost var done: set<int> := {};
      victim := None;
      while rest != {}
        invariant rest + done == byTab.Keys && rest !! done
        invariant forall d, r :: d in done && r in rest ==> d < r
        invariant victim.None? <==> Candidates(done, info, keep) == {}
        invariant victim.Some? ==> IsVictim(info, Candidates(done, info, keep), victim.value)
        decreases |rest|
      {
        ghost var least := TabTable.LeastOf(rest);
        var k :| k in rest && forall j :: j in rest ==> k <= j;
        ScanAdvance(byTab.Keys, rest, done, k);
        rest := rest - {k};
        ghost var v0 := victim;
        if Candidate(info, keep, k) {
          if victim.None? {
            victim := Some(k);
          } else {
            var v, ci := victim.value, info[k];
            var vi := info[v];
            if (!ci.starred && vi.starred) || (ci.starred == vi.starred && ci.visitedAt < vi.visitedAt) {
              victim := Some(k);
            }
          }
        }
        VictimStep(info, keep, done, k, v0, victim);
        done := done + {k};
      }
    }

    /**
     * The eviction loop of the Activity constructor: while there are more
     * than 80 activities, the victim's activity is deleted. Where no
     * activity qualifies the loop stops (see NoVictimNoProgress for the
     * loop as written).
     */
    method EvictOld(self: int, info: map<int, TabInfo>, focused: set<int>, recent: seq<int>)
      requires Valid() && byTab.Keys <= info.Keys && self in byTab
      modifies this
      ensures Valid() && self in byTab && byTab.Keys <= old(byTab.Keys)
      ensures forall k :: k in byTab ==> byTab[k] == old(byTab[k])
      ensures forall k :: k in old(byTab) && k !in byTab ==> Candidate(info, KeepLoaded(self, focused, recent), k)
      ensures |byTab| <= 80 || Candidates(byTab.Keys, info, KeepLoaded(self, focused, recent)) == {}
      ensures |old(byTab)| <= 80 ==> byTab == old(byTab)
      ensures |old(byTab)| > 80 ==> |byTab| >= 80
      ensures forall e, r :: e in old(byTab) && e !in byTab && r in Candidates(byTab.Keys, info, KeepLoaded(self, focused, recent))
                ==> !Better(info, r, e)
    {
      var keep := KeepLoaded(self, focused, recent);
      while |byTab| > 80
        invariant Valid() && self in byTab && byTab.Keys <= old(byTab.Keys) && byTab.Keys <= info.Keys
        invariant forall k :: k in byTab ==> byTab[k] == old(byTab[k])
        invariant forall k :: k in old(byTab) && k !in byTab ==> Candidate(info, keep, k)
        invariant byTab == old(byTab) || |byTab| >= 80
        invariant |old(byTab)| <= 80 ==> byTab == old(byTab)
        invariant forall e, r :: e in old(byTab) && e !in byTab && r in Candidates(byTab.Keys, info, keep)
                    ==> !Better(info, r, e)
        decreases |byTab|
      {
        var victim := FindVictim(info, keep);
        if victim.None? {
          break;
        }
        var v := victim.value;
        ghost var before := byTab;
        Remove(v);
        assert byTab.Keys == before.Keys - {v};
        assert forall r :: r in Candidates(byTab.Keys, info, keep) ==> r in Candidates(before.Keys, info, keep);
      }
    }
  }

  // ------------------------------------------------------------ click_link

  datatype ClickAction = Nothing | Focus(child: int) | Create(rel: Relation)

  /** What a click_link message does: only button 1 does anything. */
  function ClickActionFor(button: int, doubleClick: bool, shift: bool, alt: bool, lastChild: int, hasWindow: bool)
    : (action: ClickAction)
    ensures button != 1 ==> action == Nothing
    ensures action.Focus? ==> doubleClick && action.child == lastChild != 0
    ensures button == 1 && !doubleClick ==> action.Create?
  {
    if button != 1 then Nothing
    else if doubleClick then (if lastChild != 0 && hasWindow then Focus(lastChild) else Nothing)
    else if alt && shift then Create(Before)
    else if alt then Create(After)
    else if shift then Create(FirstChild)
    else Create(LastChild)
  }

  /** The modifiers name the relation one to one: each relation has exactly one (alt, shift). */
  lemma ClickRelationsOneToOne(shift: bool, alt: bool, shift': bool, alt': bool, last: int, w: bool)
    ensures ClickActionFor(1, false, shift, alt, last, w) == ClickActionFor(1, false, shift', alt', last, w)
            <==> shift == shift' && alt == alt'
    ensures ClickActionFor(1, false, shift, alt, last, w).rel == LastChild <==> !shift && !alt
  {
  }

  // ------------------------------------------------------------ navigation

  /** What webview->Navigate gives: S_OK, E_INVALIDARG, or another error (which aborts). */
  datatype NavResult = Succeeded | InvalidArg | Failed

  /** The end of a navigation: the tab URL recorded, a URL loaded, or an aborting assertion. */
  datatype Outcome = Recorded(address: seq<Byte>) | Navigated(url: seq<Byte>) | Aborted

  const HttpPrefix: seq<Byte> := "http://"
  const SearchPrefix: seq<Byte> := "https://duckduckgo.com/?q="

  /** The search URL: the prefix and escape_url of the search text. */
  function SearchUrl(search: seq<Byte>): (url: seq<Byte>)
    ensures |url| == |SearchPrefix| + |search| && url[..|SearchPrefix|] == SearchPrefix
    ensures forall i :: 0 <= i < |search| ==> url[|SearchPrefix| + i] == Text.EscapeChar(search[i])
  {
    SearchPrefix + seq(|search|, i requires 0 <= i < |search| => Text.EscapeChar(search[i]))
  }

  function SearchOutcome(search: seq<Byte>, webview: seq<Byte> -> NavResult): Outcome
  {
    if webview(SearchUrl(search)) == Succeeded then Navigated(SearchUrl(search)) else Aborted
  }

  /** The decision navigate_url_or_search makes. */
  function NavigateOutcome(address: seq<Byte>, hasWebview: bool, webview: seq<Byte> -> NavResult): (o: Outcome)
    ensures !hasWebview <==> o == Recorded(address)
    ensures o.Navigated? ==> webview(o.url) == Succeeded
    ensures o.Navigated? ==> o.url == address || o.url == HttpPrefix + address || o.url == SearchUrl(address)
  {
    if !hasWebview then Recorded(address)
    else match webview(address)
      case Succeeded => Navigated(address)
      case Failed => Aborted
      case InvalidArg =>
        if ' ' in address || '.' !in address then SearchOutcome(address, webview)
        else match webview(HttpPrefix + address)
          case Succeeded => Navigated(HttpPrefix + address)
          case Failed => Aborted
          case InvalidArg => SearchOutcome(address, webview)
  }

  /**
   * The order of attempts: the raw address wins when accepted; "http://"
   * is tried only for an address with a '.' and no space; a search is made
   * only when the earlier attempts were refused as invalid.
   */
  lemma NavigationOrder(address: seq<Byte>, webview: seq<Byte> -> NavResult)
    ensures webview(address) == Succeeded ==> NavigateOutcome(address, true, webview) == Navigated(address)
    ensures (' ' in address || '.' !in address) && webview(address) == InvalidArg
            ==> NavigateOutcome(address, true, webview) == SearchOutcome(address, webview)
    ensures NavigateOutcome(address, true, webview) == Navigated(HttpPrefix + address) && HttpPrefix + address != address
            ==> ' ' !in address && '.' in address && webview(address) == InvalidArg
  {
  }

  /** A search URL never contains a space, whatever was typed. */
  lemma SearchUrlHasNoSpace(search: seq<Byte>)
    ensures ' ' !in SearchUrl(search)
  {
  }

  // ------------------------------------------------------------ the loop as written

  /**
   * The victim choice as written: with && binding tighter than ||, a
   * candidate visited earlier replaces the victim whether or not it is
   * starred. The ids are scanned in the given order; 0 is "no victim".
   */
  function VictimAsWritten(order: seq<int>, info: map<int, TabInfo>, keep: set<int>, victim: int): (v: int)
    requires forall k :: 0 <= k < |order| ==> order[k] in info
    requires victim == 0 || victim in info
    ensures v == 0 || v in info
  {
    if order == [] then victim
    else
      var t := order[0];
      var next :=
        if !Candidate(info, keep, t) then victim
        else if victim == 0 || (!info[t].starred && info[victim].starred) || info[t].visitedAt < info[victim].visitedAt
        then t
        else victim;
      VictimAsWritten(order[1..], info, keep, next)
  }

  /**
   * Scanning tab 1 (unstarred, visited at 10) and then tab 2 (starred,
   * visited at 5), the code as written unloads the starred tab 2, while the
   * intended order unloads the unstarred tab 1.
   */
  lemma AsWrittenUnloadsStarred(info: map<int, TabInfo>)
    requires info == map[1 := TabInfo(10, false), 2 := TabInfo(5, true)]
    ensures VictimAsWritten([1, 2], info, {}, 0) == 2 && info[2].starred
    ensures IsVictim(info, Candidates({1, 2}, info, {}), 1)
  {
    assert [1, 2][1..] == [2];
    assert VictimAsWritten([2], info, {}, 1) == VictimAsWritten([], info, {}, 2) == 2;
    assert Candidates({1, 2}, info, {}) == {1, 2};
  }

  /**
   * One turn of the while loop as written: delete activity_for_tab(victim)
   * removes the victim's entry, and deleting null for victim 0 removes
   * nothing.
   */
  function EvictStepAsWritten(keys: set<int>, victim: int): (keys': set<int>)
    ensures keys' <= keys
  {
    if victim in keys then keys - {victim} else keys
  }

  /**
   * With no candidate the victim stays 0 and the turn removes nothing, so
   * more than 80 activities stay more than 80, and the loop as written never
   * ends: e.g. 81 activities whose tabs all have visited_at 0.
   */
  lemma {:induction false} NoVictimNoProgress(order: seq<int>, info: map<int, TabInfo>, keep: set<int>)
    requires forall k :: 0 <= k < |order| ==> order[k] in info && !Candidate(info, keep, order[k])
    requires |set k | 0 <= k < |order| :: order[k]| > 80 && 0 !in order
    ensures var keys := set k | 0 <= k < |order| :: order[k];
      var v := VictimAsWritten(order, info, keep, 0);
      v == 0 && EvictStepAsWritten(keys, v) == keys && |EvictStepAsWritten(keys, v)| > 80
  {
    NoCandidateKeepsVictim(order, info, keep, 0);
  }

  lemma {:induction false} NoCandidateKeepsVictim(order: seq<int>, info: map<int, TabInfo>, keep: set<int>, victim: int)
    requires forall k :: 0 <= k < |order| ==> order[k] in info && !Candidate(info, keep, order[k])
    requires victim == 0 || victim in info
    ensures VictimAsWritten(order, info, keep, victim) == victim
    decreases |order|
  {
    if order != [] {
      NoCandidateKeepsVictim(order[1..], info, keep, victim);
    }
  }
}
