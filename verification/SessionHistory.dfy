/** Facts over any sequence of `End` calls on one directory (pkg/slint/session.go). */
module SessionHistory {
  import opened GoStrings
  import opened Summaries
  import opened Sessions

  /** Each call starts with the directory that the previous one left. */
  ghost predicate History(h: seq<Event>)
  {
    && (forall i :: 0 <= i < |h| ==> EndOutcome(h[i]))
    && (forall i :: 0 < i < |h| ==> h[i - 1].after == h[i].before)
  }

  /** The call ran and was to publish its summary. */
  predicate Publishes(e: Event)
  {
    WritesArtifacts(e) && e.err != Some(NotStarted)
  }

  /** No file but the alias is ever changed or removed. */
  lemma {:induction false} AuditHistory(h: seq<Event>, i: nat, j: nat, p: string)
    requires History(h) && i <= j < |h| && p != ALIAS && p in h[i].before
    ensures p in h[j].after && h[j].after[p] == h[i].before[p]
    decreases j - i
  {
    hide AuditOwned, AliasCurrent, AliasCleared, AliasStuck;
    assert EndOutcome(h[i]);
    if i < j {
      assert h[(i + 1) - 1].after == h[i + 1].before;
      AuditHistory(h, i + 1, j, p);
    }
  }

  /** Every audit file that a run wrote holds that run's summary after the whole sequence, and no two runs
      wrote the same file. */
  lemma AuditsComplete(h: seq<Event>, i: nat)
    requires History(h) && i < |h| && h[i].audit.Some?
    ensures var p, final := h[i].audit.value, h[|h| - 1].after;
      h[i].sum.Some? && p in final && final[p] == Published(h[i].sum.value)
    ensures forall j :: i < j < |h| ==> h[j].audit != h[i].audit
  {
    var p := h[i].audit.value;
    assert EndOutcome(h[i]);
    forall j | i < j < |h| ensures h[j].audit != h[i].audit {
      AuditPresent(h, i, j);
      assert EndOutcome(h[j]);
    }
    hide *;
    if i + 1 < |h| {
      AuditPresent(h, i, |h| - 1);
      KeptContent(h, i, |h| - 1);
    }
  }

  /** The audit file of an earlier run is there when a later one starts. */
  lemma AuditPresent(h: seq<Event>, i: nat, j: nat)
    requires History(h) && i < j < |h| && h[i].audit.Some?
    ensures h[i].audit.value in h[j].before
  {
    hide AliasCurrent, AliasCleared, AliasStuck;
    assert EndOutcome(h[i]);
    var p := h[i].audit.value;
    assert h[(i + 1) - 1].after == h[i + 1].before;
    if i + 1 < j {
      AuditHistory(h, i + 1, j - 1, p);
    }
    assert h[j - 1].after == h[j].before;
  }

  lemma KeptContent(h: seq<Event>, i: nat, j: nat)
    requires History(h) && i < j < |h| && h[i].audit.Some?
    ensures var p := h[i].audit.value;
      p in h[i].after && p in h[j].after && h[j].after[p] == h[i].after[p]
  {
    hide AliasCurrent, AliasCleared, AliasStuck;
    assert EndOutcome(h[i]);
    assert h[(i + 1) - 1].after == h[i + 1].before;
    AuditHistory(h, i + 1, j, h[i].audit.value);
  }

  lemma {:induction false} QuietRuns(h: seq<Event>, k: nat, j: nat)
    requires History(h) && k <= j < |h|
    requires forall i :: k < i <= j ==> !Publishes(h[i])
    ensures h[j].after == h[k].after
    decreases j - k
  {
    hide Keeps, AuditOwned, AliasCurrent, AliasCleared, AliasStuck;
    if k < j {
      QuietRuns(h, k, j - 1);
      assert EndOutcome(h[j]) && h[j - 1].after == h[j].before;
    }
  }

  /** After any sequence the alias, if there is one, is the summary of the last run that was to publish,
      unless that run reported that it could not remove a stale one; and a success leaves it in place. */
  lemma NoStaleAlias(h: seq<Event>, k: nat)
    requires History(h) && k < |h| && Publishes(h[k])
    requires forall i :: k < i < |h| ==> !Publishes(h[i])
    ensures var final := h[|h| - 1].after;
      && (ALIAS in final && !AliasStuck(h[k]) ==>
            h[k].sum.Some? && final[ALIAS] == Published(h[k].sum.value))
      && (h[k].err.None? ==> ALIAS in final)
  {
    QuietRuns(h, k, |h| - 1);
    assert EndOutcome(h[k]);
  }
}
