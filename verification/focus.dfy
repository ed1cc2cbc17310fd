/**
 The daily-focus page: finding the focus for a calendar day, the guards and
 payloads of the create, update and completion-toggle requests, and the
 completion statistics the page computes over the last week's rows.
 The clock is a parameter: "now" and the selected day arrive as ISO-8601
 timestamps (`toISOString()` output), and the backend is left out.
 */
module Focus {
  import opened Optional
  import opened Seqs
  import opened Text
  import Stats

  /** A row of `daily_focuses`. */
  datatype DailyFocus = DailyFocus(
    id: string,
    userId: string,
    focusDate: string,
    title: string,
    description: Option<string>,
    completed: bool,
    completedAt: Option<string>,
    createdAt: string,
    updatedAt: string)

  /**
   `iso.split("T")[0]`: the calendar-day key of a timestamp, the part before the
   first "T" (all of it when there is none).
   */
  function DateKey(iso: string): (key: string)
    ensures key <= iso
    ensures 'T' !in key
    ensures |key| < |iso| ==> iso[|key|] == 'T'
  {
    if iso == [] || iso[0] == 'T' then [] else [iso[0]] + DateKey(iso[1..])
  }

  /** The key of "day T time" is the day, whatever the time. */
  lemma {:induction false} DateKeyOfTimestamp(day: string, time: string)
    requires 'T' !in day
    ensures DateKey(day + "T" + time) == day
  {
    if day != [] {
      assert (day + "T" + time)[1..] == day[1..] + "T" + time;
      DateKeyOfTimestamp(day[1..], time);
    }
  }

  /** A key is its own key. */
  lemma DateKeyIdempotent(iso: string)
    ensures DateKey(DateKey(iso)) == DateKey(iso)
  {
    var k := DateKey(iso);
    DateKeyOfTimestamp(k, "");
    assert k + "T" + "" == k + "T";
    assert DateKey(k + "T") == k;
    DateKeyNoT(k);
  }

  lemma {:induction false} DateKeyNoT(s: string)
    requires 'T' !in s
    ensures DateKey(s) == s
  {
    if s != [] {
      DateKeyNoT(s[1..]);
    }
  }

  /** `isToday`: the selected timestamp falls on the same key as now. */
  function IsToday(selectedIso: string, nowIso: string): (ok: bool)
    ensures ok ==> DateKey(selectedIso) <= selectedIso && DateKey(selectedIso) <= nowIso
    ensures 'T' !in selectedIso && 'T' !in nowIso ==> (ok <==> selectedIso == nowIso)
  {
    assert 'T' !in selectedIso ==> DateKey(selectedIso) == selectedIso by {
      if 'T' !in selectedIso { DateKeyNoT(selectedIso); }
    }
    assert 'T' !in nowIso ==> DateKey(nowIso) == nowIso by {
      if 'T' !in nowIso { DateKeyNoT(nowIso); }
    }
    DateKey(selectedIso) == DateKey(nowIso)
  }

  /** Two timestamps are "today" for each other exactly when their days agree; the times do not matter. */
  lemma IsTodayIgnoresTime(day1: string, time1: string, day2: string, time2: string)
    requires 'T' !in day1 && 'T' !in day2
    ensures IsToday(day1 + "T" + time1, day2 + "T" + time2) <==> day1 == day2
  {
    DateKeyOfTimestamp(day1, time1);
    DateKeyOfTimestamp(day2, time2);
  }

  /**
   The focus recorded for day `key`: the first in `focuses` whose date is `key`
   (`focuses.find(...)`), or None when that day has none.
   */
  function FocusForDate(focuses: seq<DailyFocus>, key: string): (r: Option<DailyFocus>)
    ensures r.None? <==> forall i :: 0 <= i < |focuses| ==> focuses[i].focusDate != key
    ensures r.Some? ==>
              exists i :: && 0 <= i < |focuses| && focuses[i] == r.value && focuses[i].focusDate == key
                          && forall j :: 0 <= j < i ==> focuses[j].focusDate != key
  {
    Find(focuses, (f: DailyFocus) => f.focusDate == key)
  }

  /** At most one focus per day: then the lookup returns the one recorded for that day. */
  lemma FocusForDateUnique(focuses: seq<DailyFocus>, i: int)
    requires 0 <= i < |focuses|
    requires forall j :: 0 <= j < |focuses| && j != i ==> focuses[j].focusDate != focuses[i].focusDate
    ensures FocusForDate(focuses, focuses[i].focusDate) == Some(focuses[i])
  {
  }

  /** `selectedFocus`: the focus, among the recent ones, for the day of the selected timestamp. */
  function SelectedFocus(recent: seq<DailyFocus>, selectedIso: string): (r: Option<DailyFocus>)
    ensures r.None? <==> forall i :: 0 <= i < |recent| ==> recent[i].focusDate != DateKey(selectedIso)
    ensures r.Some? ==>
              exists i :: && 0 <= i < |recent| && recent[i] == r.value && recent[i].focusDate == DateKey(selectedIso)
                          && forall j :: 0 <= j < i ==> recent[j].focusDate != DateKey(selectedIso)
  {
    FocusForDate(recent, DateKey(selectedIso))
  }

  /** The edit form of the page. */
  datatype FocusForm = FocusForm(title: string, description: string)

  /** The form starts from today's focus (`todayFocus?.title || ""`), or empty. */
  function InitialForm(todayFocus: Option<DailyFocus>): (form: FocusForm)
    ensures todayFocus.None? ==> form == FocusForm("", "")
    ensures todayFocus.Some? ==> form.title == todayFocus.value.title
    ensures todayFocus.Some? ==> form.description == todayFocus.value.description.GetOr("")
  {
    match todayFocus
    case None => FocusForm("", "")
    case Some(f) => FocusForm(f.title, f.description.GetOr(""))
  }

  /** `description.trim() || null`. */
  function DescriptionOrNull(description: string): (r: Option<string>)
    ensures r.None? <==> AllSpace(description)
    ensures r.Some? ==> r.value == Trim(description) && r.value != []
  {
    var t := Trim(description);
    if t == [] then None else Some(t)
  }

  /** The row `handleCreateFocus` inserts. */
  datatype FocusInsert = FocusInsert(
    userId: string,
    focusDate: string,
    title: string,
    description: Option<string>,
    completed: bool)

  /**
   `handleCreateFocus`: no insert when the title is blank; otherwise the trimmed
   title, the trimmed description or null, not completed, dated on the selected day.
   */
  function CreateFocus(form: FocusForm, selectedIso: string, userId: string): (r: Option<FocusInsert>)
    ensures r.None? <==> AllSpace(form.title)
    ensures r.Some? ==> && r.value.title == Trim(form.title)
                        && r.value.title != []
                        && NoEdgeSpace(r.value.title)
                        && (r.value.description.None? <==> AllSpace(form.description))
                        && (r.value.description.Some? ==> r.value.description.value == Trim(form.description))
                        && !r.value.completed
                        && r.value.focusDate == DateKey(selectedIso)
                        && r.value.userId == userId
  {
    var title := Trim(form.title);
    if title == [] then None
    else
      Some(FocusInsert(userId, DateKey(selectedIso), title, DescriptionOrNull(form.description), false))
  }

  /** The fields `handleUpdateFocus` writes to the row with id `id`. */
  datatype FocusUpdate = FocusUpdate(id: string, title: string, description: Option<string>, updatedAt: string)

  /**
   `handleUpdateFocus`: nothing is written when the title is blank or there is no
   focus for today; otherwise today's focus gets the trimmed title and description.
   */
  function UpdateFocus(form: FocusForm, todayFocus: Option<DailyFocus>, nowIso: string): (r: Option<FocusUpdate>)
    ensures r.None? <==> AllSpace(form.title) || todayFocus.None?
    ensures r.Some? ==> && r.value.id == todayFocus.value.id
                        && r.value.title == Trim(form.title) && r.value.title != []
                        && (r.value.description.None? <==> AllSpace(form.description))
                        && (r.value.description.Some? ==> r.value.description.value == Trim(form.description))
                        && r.value.updatedAt == nowIso
  {
    var title := Trim(form.title);
    if title == [] || todayFocus.None? then None
    else Some(FocusUpdate(todayFocus.value.id, title, DescriptionOrNull(form.description), nowIso))
  }

  /** The fields `handleToggleComplete` writes. */
  datatype ToggleUpdate = ToggleUpdate(id: string, completed: bool, completedAt: Option<string>, updatedAt: string)

  /**
   `handleToggleComplete`: flips `completed`, and stamps `completed_at` exactly when
   the focus becomes completed (null otherwise). The source reads the clock twice,
   once for `completed_at` and once for `updated_at`, so the two readings are
   separate parameters and may differ.
   */
  function ToggleComplete(todayFocus: Option<DailyFocus>, completedIso: string, updatedIso: string): (r: Option<ToggleUpdate>)
    ensures r.None? <==> todayFocus.None?
    ensures r.Some? ==> && r.value.id == todayFocus.value.id
                        && r.value.completed == !todayFocus.value.completed
                        && (r.value.completedAt.Some? <==> r.value.completed)
                        && (r.value.completedAt.Some? ==> r.value.completedAt.value == completedIso)
                        && r.value.updatedAt == updatedIso
  {
    match todayFocus
    case None => None
    case Some(f) =>
      var completed := !f.completed;
      Some(ToggleUpdate(f.id, completed, if completed then Some(completedIso) else None, updatedIso))
  }

  /** The row after the backend has applied a toggle. */
  function ApplyToggle(f: DailyFocus, u: ToggleUpdate): DailyFocus {
    f.(completed := u.completed, completedAt := u.completedAt, updatedAt := u.updatedAt)
  }

  /** A row carries a completion time exactly when it is completed. */
  predicate StampConsistent(f: DailyFocus) {
    f.completedAt.Some? <==> f.completed
  }

  /**
   Toggling twice gives back the original completion flag, every toggle leaves the
   row stamp-consistent, and a row that was consistent is restored up to its
   timestamps' values.
   */
  lemma ToggleTwice(f: DailyFocus, c1: string, u1: string, c2: string, u2: string)
    ensures var g := ApplyToggle(f, ToggleComplete(Some(f), c1, u1).value);
            var h := ApplyToggle(g, ToggleComplete(Some(g), c2, u2).value);
            && StampConsistent(g) && StampConsistent(h)
            && g.completed == !f.completed
            && h.completed == f.completed
            && (g.id, g.title, g.description, g.focusDate) == (f.id, f.title, f.description, f.focusDate)
            && (StampConsistent(f) && !f.completed ==> h.completedAt == f.completedAt)
  {
  }

  /** The statistics the focus page passes to its client component. */
  datatype CompletionStats = CompletionStats(completed: nat, total: nat, percentage: nat)

  /**
   The page's completion statistics over the fetched `completed` column
   (None when the query returned no data): counts, and `Math.round` of the
   completed share in percent, 0 when there are no rows.
   */
  function FocusStats(completedColumn: Option<seq<bool>>): (s: CompletionStats)
    ensures s.completed <= s.total
    ensures s.total == if completedColumn.Some? then |completedColumn.value| else 0
    ensures completedColumn.Some? ==>
              s.completed == |set i | 0 <= i < |completedColumn.value| && completedColumn.value[i]|
    ensures s.total == 0 ==> s.completed == 0 && s.percentage == 0
    ensures s.total > 0 ==> 2 * s.total * s.percentage <= 200 * s.completed + s.total
                            < 2 * s.total * s.percentage + 2 * s.total
    ensures s.percentage <= 100
  {
    var rows := completedColumn.GetOr([]);
    var completed := Count(rows, (c: bool) => c);
    assert Positions(rows, (c: bool) => c) == set i | 0 <= i < |rows| && rows[i];
    CompletionStats(completed, |rows|, Stats.RoundedPercent(completed, |rows|))
  }

  /** The statistics the page falls back to when the backend is unreachable. */
  function FallbackStats(): CompletionStats {
    CompletionStats(1, 2, 50)
  }

  /**
   The fallback figures are what the formula gives on the fallback's own two
   sample focuses, today's (open) and yesterday's (completed).
   */
  lemma FallbackAgreesWithFormula()
    ensures FallbackStats() == FocusStats(Some([false, true]))
  {
  }
}
