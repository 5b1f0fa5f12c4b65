/**
 What the chart is built from, recomputed from the store on every run of the
 script: the group filter's options, the visible projects, the marks inside the
 window, the y-axis category labels with the project-to-label map, the marker
 sizes, the project colours and the figure height.
 */
module Projection {
  import opened Lists
  import opened Text
  import opened OrderedDict
  import opened Dates
  import opened Sizing
  import opened Timeline

  /** The label of the baseline row. */
  const Baseline: string := "⏱ День"

  /** The pixel height of one row, `row_height`. */
  const RowHeight: int := 56

  /** The label of a project's row, `f"{g} • {p}"`. */
  function Label(g: string, p: string): (l: string)
    ensures |l| == |g| + 3 + |p| && l[..|g|] == g && l[|g| + 3..] == p
    ensures l[|g|..|g| + 3] == " • "
  {
    g + " • " + p
  }

  /**
   Different projects can share a row: the label joins group and project with
   " • " and cannot be split back, so a name containing the separator collides.
   */
  lemma LabelsCanCollide()
    ensures Label("a", "b • c") == Label("a • b", "c")
  {
  }

  // ---------------------------------------------------------------------------
  // Visible projects and the marks inside the window

  /** `[p for p, g in projects.items() if g in groups_to_show]`. */
  function VisibleProjects(projects: Dict<string, string>, shown: seq<string>): (vis: seq<string>)
    ensures |vis| <= |projects|
  {
    if projects == [] then []
    else (if projects[0].1 in shown then [projects[0].0] else []) + VisibleProjects(projects[1..], shown)
  }

  /** A project is visible exactly when the dictionary files it under a shown group. */
  lemma {:induction false} VisibleProjectsMembers(projects: Dict<string, string>, shown: seq<string>, p: string)
    requires DistinctKeys(projects)
    ensures p in VisibleProjects(projects, shown) <==> Get(projects, p).Some? && Get(projects, p).value in shown
  {
    if projects != [] {
      assert Keys(projects[1..]) == Keys(projects)[1..];
      assert DistinctKeys(projects[1..]);
      VisibleProjectsMembers(projects[1..], shown, p);
      if projects[0].0 == p {
        assert p !in Keys(projects[1..]) by {
          forall i | 0 <= i < |projects| - 1 ensures Keys(projects[1..])[i] != p {
            assert Keys(projects)[i + 1] != Keys(projects)[0];
          }
        }
      }
    }
  }

  /** Whether a mark is drawn: its day lies in the window and its project is visible. */
  predicate Shown(e: Entry, projects: Dict<string, string>, shown: seq<string>, w: Window)
    ensures DistinctKeys(projects) ==>
              (Shown(e, projects, shown, w) <==>
                 w.start <= e.date <= w.end && Get(projects, e.project).Some? && Get(projects, e.project).value in shown)
  {
    var visible := e.project in VisibleProjects(projects, shown);
    assert DistinctKeys(projects) ==>
             (visible <==> Get(projects, e.project).Some? && Get(projects, e.project).value in shown) by {
      if DistinctKeys(projects) {
        VisibleProjectsMembers(projects, shown, e.project);
      }
    }
    w.start <= e.date <= w.end && visible
  }

  /** The window mask: the marks drawn, in the order they were recorded. */
  function WindowEntries(entries: seq<Entry>, projects: Dict<string, string>, shown: seq<string>, w: Window): (win: seq<Entry>)
    ensures |win| <= |entries|
    ensures forall i :: 0 <= i < |win| ==> win[i] in entries && Shown(win[i], projects, shown, w)
    ensures forall i :: 0 <= i < |entries| && Shown(entries[i], projects, shown, w) ==> entries[i] in win
  {
    if entries == [] then []
    else
      var n := |entries|;
      var rest := WindowEntries(entries[..n - 1], projects, shown, w);
      assert entries == entries[..n - 1] + [entries[n - 1]];
      rest + (if Shown(entries[n - 1], projects, shown, w) then [entries[n - 1]] else [])
  }

  /**
   A mark is drawn exactly when its day lies in `[start, end]` and the project's
   current group, looked up in the dictionary, is shown. The group copied into the
   mark plays no part.
   */
  lemma WindowEntriesMembers(entries: seq<Entry>, projects: Dict<string, string>, shown: seq<string>, w: Window, e: Entry)
    requires DistinctKeys(projects)
    ensures e in WindowEntries(entries, projects, shown, w) <==>
              e in entries && w.start <= e.date <= w.end &&
              Get(projects, e.project).Some? && Get(projects, e.project).value in shown
  {
    VisibleProjectsMembers(projects, shown, e.project);
  }

  /**
   The mask works mark by mark: the drawn marks of two runs of marks are those of
   the first followed by those of the second. With `later == [e]` this is saving a
   mark, which adds it at the end of the drawn marks exactly when it is drawable.
   */
  lemma {:induction false} WindowEntriesConcat(earlier: seq<Entry>, later: seq<Entry>,
                                               projects: Dict<string, string>, shown: seq<string>, w: Window)
    ensures WindowEntries(earlier + later, projects, shown, w) ==
              WindowEntries(earlier, projects, shown, w) + WindowEntries(later, projects, shown, w)
    decreases |later|
  {
    if later == [] {
      assert earlier + later == earlier;
    } else {
      var n := |later|;
      var e := later[n - 1];
      var last := if Shown(e, projects, shown, w) then [e] else [];
      var front := later[..n - 1];
      assert (earlier + later)[..|earlier + later| - 1] == earlier + front;
      WindowEntriesConcat(earlier, front, projects, shown, w);
      var a, b := WindowEntries(earlier, projects, shown, w), WindowEntries(front, projects, shown, w);
      assert WindowEntries(earlier + later, projects, shown, w) == (a + b) + last;
      assert WindowEntries(later, projects, shown, w) == b + last;
      assert (a + b) + last == a + (b + last);
    }
  }

  // ---------------------------------------------------------------------------
  // Category labels

  /** `[p for p, gg in projects.items() if gg == g]`. */
  function NamesIn(projects: Dict<string, string>, g: string): (names: seq<string>)
    ensures |names| <= |projects|
  {
    if projects == [] then []
    else (if projects[0].1 == g then [projects[0].0] else []) + NamesIn(projects[1..], g)
  }

  /** The names listed for `g` are exactly the projects filed under `g`. */
  lemma {:induction false} NamesInMembers(projects: Dict<string, string>, g: string)
    ensures forall i :: 0 <= i < |NamesIn(projects, g)| ==> (NamesIn(projects, g)[i], g) in projects
    ensures forall i :: 0 <= i < |projects| && projects[i].1 == g ==> projects[i].0 in NamesIn(projects, g)
  {
    if projects != [] {
      var rest := NamesIn(projects[1..], g);
      NamesInMembers(projects[1..], g);
      assert forall i :: 0 <= i < |rest| ==> (rest[i], g) in projects[1..];
      forall i | 0 < i < |projects| && projects[i].1 == g ensures projects[i].0 in rest {
        assert projects[i] == projects[1..][i - 1];
      }
    }
  }

  /** A dictionary's keys are distinct, so no name is listed twice for a group. */
  lemma {:induction false} NamesInDistinct(projects: Dict<string, string>, g: string)
    requires DistinctKeys(projects)
    ensures NoDuplicates(NamesIn(projects, g))
  {
    if projects != [] {
      var rest := NamesIn(projects[1..], g);
      assert Keys(projects[1..]) == Keys(projects)[1..];
      assert DistinctKeys(projects[1..]);
      NamesInDistinct(projects[1..], g);
      if projects[0].1 == g {
        NamesInMembers(projects[1..], g);
        assert projects[0].0 !in rest by {
          forall i | 0 <= i < |rest| ensures rest[i] != projects[0].0 {
            var j :| 0 <= j < |projects[1..]| && projects[1..][j] == (rest[i], g);
            assert Keys(projects)[j + 1] != Keys(projects)[0];
          }
        }
        AppendFrontKeepsDistinct(projects[0].0, rest);
      }
    }
  }

  function LabelAll(g: string, names: seq<string>): seq<string> {
    seq(|names|, i requires 0 <= i < |names| => Label(g, names[i]))
  }

  /** The labels of one shown group: `f"{g} • {p}"` for its projects sorted by name. */
  function GroupLabels(projects: Dict<string, string>, g: string): (ls: seq<string>)
    ensures |ls| == |NamesIn(projects, g)|
  {
    LabelAll(g, Sort(NamesIn(projects, g)))
  }

  /** The labels after the baseline, group by group in the order of `groups_to_show`. */
  function ShownLabels(projects: Dict<string, string>, shown: seq<string>): (ls: seq<string>)
    ensures |ls| <= |shown| * |projects|
  {
    if shown == [] then []
    else
      assert (|shown| - 1) * |projects| + |projects| == |shown| * |projects|;
      ShownLabels(projects, shown[..|shown| - 1]) + GroupLabels(projects, shown[|shown| - 1])
  }

  /**
   The y-axis categories, built as the script builds them: the baseline, then for
   each shown group the labels of its projects in name order.
   */
  method CategoryLabels(projects: Dict<string, string>, shown: seq<string>) returns (labels: seq<string>)
    ensures labels == [Baseline] + ShownLabels(projects, shown)
    ensures labels[0] == Baseline
    ensures NoDuplicates(shown) ==> |labels| == 1 + |VisibleProjects(projects, shown)|
    ensures forall i :: 0 <= i < |projects| && projects[i].1 in shown ==>
              Label(projects[i].1, projects[i].0) in labels
  {
    labels := AppendGroups([Baseline], projects, shown);
    CategoryLabelsFacts(projects, shown, labels);
  }

  /** The outer loop: append each shown group's block in turn. */
  method AppendGroups(labels: seq<string>, projects: Dict<string, string>, shown: seq<string>) returns (out: seq<string>)
    ensures out == labels + ShownLabels(projects, shown)
  {
    out := labels;
    for k := 0 to |shown|
      invariant out == labels + ShownLabels(projects, shown[..k])
    {
      ghost var before := out;
      out := AppendGroup(out, projects, shown[k]);
      ShownLabelsExtend(labels, before, out, projects, shown, k);
    }
    assert shown[..|shown|] == shown;
  }

  /** The inner loop: append `f"{g} • {p}"` for each project of `g` in name order. */
  method AppendGroup(labels: seq<string>, projects: Dict<string, string>, g: string) returns (out: seq<string>)
    ensures out == labels + GroupLabels(projects, g)
  {
    var names := Sort(NamesIn(projects, g));
    out := labels;
    for j := 0 to |names|
      invariant out == labels + LabelAll(g, names[..j])
    {
      assert LabelAll(g, names[..j + 1]) == LabelAll(g, names[..j]) + [Label(g, names[j])];
      out := out + [Label(g, names[j])];
    }
    assert names[..|names|] == names;
  }

  lemma ShownLabelsExtend(labels: seq<string>, before: seq<string>, after: seq<string>,
                          projects: Dict<string, string>, shown: seq<string>, k: int)
    requires 0 <= k < |shown|
    requires before == labels + ShownLabels(projects, shown[..k])
    requires after == before + GroupLabels(projects, shown[k])
    ensures after == labels + ShownLabels(projects, shown[..k + 1])
  {
    ShownLabelsStep(projects, shown, k);
    var done, next := ShownLabels(projects, shown[..k]), GroupLabels(projects, shown[k]);
    assert labels + (done + next) == (labels + done) + next;
  }

  lemma ShownLabelsStep(projects: Dict<string, string>, shown: seq<string>, k: int)
    requires 0 <= k < |shown|
    ensures ShownLabels(projects, shown[..k + 1]) == ShownLabels(projects, shown[..k]) + GroupLabels(projects, shown[k])
  {
    assert shown[..k + 1][..k] == shown[..k];
  }

  /** What the categories amount to: the baseline first, one label per visible project, none missing. */
  lemma CategoryLabelsFacts(projects: Dict<string, string>, shown: seq<string>, labels: seq<string>)
    requires labels == [Baseline] + ShownLabels(projects, shown)
    ensures labels[0] == Baseline
    ensures NoDuplicates(shown) ==> |labels| == 1 + |VisibleProjects(projects, shown)|
    ensures forall i :: 0 <= i < |projects| && projects[i].1 in shown ==>
              Label(projects[i].1, projects[i].0) in labels
  {
    if NoDuplicates(shown) {
      ShownLabelsCount(projects, shown);
    }
    forall i | 0 <= i < |projects| && projects[i].1 in shown
      ensures Label(projects[i].1, projects[i].0) in labels
    {
      ShownLabelsComplete(projects, shown, i);
    }
  }

  /** The projects filed under a group that is added to a duplicate-free filter are new to the count. */
  lemma {:induction false} VisibleCountStep(projects: Dict<string, string>, shown: seq<string>, g: string)
    requires g !in shown
    ensures |VisibleProjects(projects, shown + [g])| == |VisibleProjects(projects, shown)| + |NamesIn(projects, g)|
  {
    if projects != [] {
      VisibleCountStep(projects[1..], shown, g);
    }
  }

  /** There is one label per visible project when no group is shown twice. */
  lemma {:induction false} ShownLabelsCount(projects: Dict<string, string>, shown: seq<string>)
    requires NoDuplicates(shown)
    ensures |ShownLabels(projects, shown)| == |VisibleProjects(projects, shown)|
  {
    if shown == [] {
      assert VisibleProjects(projects, []) == [] by { NothingVisible(projects); }
    } else {
      var n := |shown|;
      var prefix, g := shown[..n - 1], shown[n - 1];
      assert NoDuplicates(prefix);
      assert g !in prefix by {
        forall i | 0 <= i < n - 1 ensures prefix[i] != g { assert prefix[i] == shown[i]; }
      }
      ShownLabelsCount(projects, prefix);
      VisibleCountStep(projects, prefix, g);
      assert prefix + [g] == shown;
      var names := NamesIn(projects, g);
      assert |Sort(names)| == |names| by {
        SortSorted(names);
        assert |multiset(Sort(names))| == |multiset(names)|;
      }
    }
  }

  lemma {:induction false} NothingVisible(projects: Dict<string, string>)
    ensures VisibleProjects(projects, []) == []
  {
    if projects != [] {
      NothingVisible(projects[1..]);
    }
  }

  /** Every project of a shown group has its label among the categories. */
  lemma {:induction false} ShownLabelsComplete(projects: Dict<string, string>, shown: seq<string>, i: int)
    requires 0 <= i < |projects| && projects[i].1 in shown
    ensures Label(projects[i].1, projects[i].0) in ShownLabels(projects, shown)
  {
    var n := |shown|;
    var (p, g) := projects[i];
    if shown[n - 1] == g {
      var names := Sort(NamesIn(projects, g));
      SortSorted(NamesIn(projects, g));
      NamesInMembers(projects, g);
      assert p in multiset(NamesIn(projects, g));
      assert p in multiset(names);
      var k :| 0 <= k < |names| && names[k] == p;
      assert GroupLabels(projects, g)[k] == Label(g, p);
    } else {
      assert g in shown[..n - 1] by {
        var k :| 0 <= k < n && shown[k] == g;
        assert shown[..n - 1][k] == g;
      }
      ShownLabelsComplete(projects, shown[..n - 1], i);
    }
  }

  /** Every category after the baseline is the label of a project of a shown group. */
  lemma {:induction false} ShownLabelsSound(projects: Dict<string, string>, shown: seq<string>, l: string)
    requires l in ShownLabels(projects, shown)
    ensures exists i :: 0 <= i < |projects| && projects[i].1 in shown && l == Label(projects[i].1, projects[i].0)
  {
    var n := |shown|;
    var prefix, g := shown[..n - 1], shown[n - 1];
    if l in ShownLabels(projects, prefix) {
      ShownLabelsSound(projects, prefix, l);
      var i :| 0 <= i < |projects| && projects[i].1 in prefix && l == Label(projects[i].1, projects[i].0);
      assert projects[i].1 in shown;
    } else {
      var names := Sort(NamesIn(projects, g));
      SortSorted(NamesIn(projects, g));
      NamesInMembers(projects, g);
      var k :| 0 <= k < |names| && l == Label(g, names[k]);
      assert names[k] in multiset(NamesIn(projects, g));
      assert (names[k], g) in projects;
      var i :| 0 <= i < |projects| && projects[i] == (names[k], g);
      assert projects[i].1 in shown;
    }
  }

  /**
   One group's block lists its projects once each, sorted by name: it is the same
   for every sorted arrangement of the project names, so it does not depend on the
   order of the dictionary.
   */
  lemma GroupLabelsSortedByName(projects: Dict<string, string>, g: string, names: seq<string>)
    requires Sorted(names) && multiset(names) == multiset(NamesIn(projects, g))
    ensures GroupLabels(projects, g) == LabelAll(g, names)
    ensures DistinctKeys(projects) ==> NoDuplicates(names)
  {
    SortedPermutationIsSort(NamesIn(projects, g), names);
    if DistinctKeys(projects) {
      NamesInDistinct(projects, g);
      PermutationKeepsDistinct(NamesIn(projects, g), names);
    }
  }

  // ---------------------------------------------------------------------------
  // The project-to-label map and the swimlanes

  /** `{p: f"{projects[p]} • {p}" for p in projects}`. */
  function ProjToCat(projects: Dict<string, string>): (cats: Dict<string, string>)
    ensures Keys(cats) == Keys(projects)
    ensures forall i :: 0 <= i < |projects| ==> cats[i] == (projects[i].0, Label(projects[i].1, projects[i].0))
  {
    var cats := seq(|projects|, i requires 0 <= i < |projects| => (projects[i].0, Label(projects[i].1, projects[i].0)));
    assert Keys(cats) == Keys(projects);
    cats
  }

  /**
   The swimlane of a project in a shown group is drawn on `proj_to_cat[p]`, and that
   label is one of the categories, so every drawn mark lands on a listed row.
   */
  lemma SwimlaneOnCategory(projects: Dict<string, string>, shown: seq<string>, p: string)
    requires DistinctKeys(projects)
    requires Get(projects, p).Some? && Get(projects, p).value in shown
    ensures Get(ProjToCat(projects), p) == Some(Label(Get(projects, p).value, p))
    ensures Label(Get(projects, p).value, p) in ShownLabels(projects, shown)
  {
    var g := Get(projects, p).value;
    var i :| 0 <= i < |projects| && projects[i] == (p, g);
    assert DistinctKeys(ProjToCat(projects));
    ShownLabelsComplete(projects, shown, i);
  }

  // ---------------------------------------------------------------------------
  // Markers

  datatype Marker = Marker(date: int, size: int)

  /** The baseline row: one 100 % marker per day of the window. */
  function BaselineMarkers(w: Window): (ms: seq<Marker>)
    ensures |ms| == DayCount(w)
    ensures forall i :: 0 <= i < |ms| ==> ms[i].size == 28 && w.start <= ms[i].date <= w.end
    ensures forall i :: 0 <= i < |ms| ==> ms[i].date == w.start + i
  {
    var days := DateRange(w.start, w.end);
    DateRangeMembers(w.start, w.end);
    BaselineMarkerSize();
    seq(|days|, i requires 0 <= i < |days| => Marker(days[i], MarkerSize(100, DefaultMinPx, DefaultMaxPx)))
  }

  /** `df_e_win.loc[df_e_win["project"] == p]`: the drawn marks of one project. */
  function EntriesOf(win: seq<Entry>, p: string): (sub: seq<Entry>)
    ensures |sub| <= |win|
    ensures forall i :: 0 <= i < |sub| ==> sub[i] in win && sub[i].project == p
    ensures forall i :: 0 <= i < |win| && win[i].project == p ==> win[i] in sub
  {
    if win == [] then []
    else
      var rest := EntriesOf(win[1..], p);
      assert forall i :: 0 <= i < |rest| ==> rest[i] in win[1..];
      assert forall i :: 1 <= i < |win| ==> win[i] == win[1..][i - 1];
      (if win[0].project == p then [win[0]] else []) + rest
  }

  /** The markers of project `p`: its drawn marks, sized by `px_size(percent)`. */
  function RowMarkers(win: seq<Entry>, p: string): (ms: seq<Marker>)
    ensures |ms| == |EntriesOf(win, p)|
    ensures forall i :: 0 <= i < |ms| ==>
              ms[i] == Marker(EntriesOf(win, p)[i].date, MarkerSize(EntriesOf(win, p)[i].percent, DefaultMinPx, DefaultMaxPx))
  {
    var sub := EntriesOf(win, p);
    seq(|sub|, i requires 0 <= i < |sub| => Marker(sub[i].date, MarkerSize(sub[i].percent, DefaultMinPx, DefaultMaxPx)))
  }

  /** Every marker of a row lies in the window and is either hidden (size 0) or 6 to 28 pixels. */
  lemma RowMarkersInWindow(entries: seq<Entry>, projects: Dict<string, string>, shown: seq<string>, w: Window, p: string)
    ensures forall m :: m in RowMarkers(WindowEntries(entries, projects, shown, w), p) ==>
              w.start <= m.date <= w.end && (m.size == 0 || DefaultMinPx <= m.size <= DefaultMaxPx)
  {
    var win := WindowEntries(entries, projects, shown, w);
    var ms := RowMarkers(win, p);
    var sub := EntriesOf(win, p);
    forall m | m in ms
      ensures w.start <= m.date <= w.end && (m.size == 0 || DefaultMinPx <= m.size <= DefaultMaxPx)
    {
      var i :| 0 <= i < |ms| && ms[i] == m;
      assert sub[i] in win;
    }
  }

  // ---------------------------------------------------------------------------
  // Colours and height

  /**
   `proj_colors`: the projects in name order take the palette's colours in turn,
   starting over when the palette runs out.
   */
  method AssignColors(projects: Dict<string, string>, palette: seq<string>) returns (colors: map<string, string>)
    requires DistinctKeys(projects) && |palette| > 0
    ensures forall p :: p in colors <==> p in Keys(projects)
    ensures var names := Sort(Keys(projects));
            forall i :: 0 <= i < |names| ==> names[i] in colors && colors[names[i]] == palette[i % |palette|]
    ensures NoDuplicates(palette) && |projects| <= |palette| ==>
              forall p, q :: p in colors && q in colors && p != q ==> colors[p] != colors[q]
  {
    var names := Sort(Keys(projects));
    SortedKeys(projects);
    colors := map[];
    for idx := 0 to |names|
      invariant forall p :: p in colors <==> p in names[..idx]
      invariant forall i :: 0 <= i < idx ==> colors[names[i]] == palette[i % |palette|]
    {
      colors := colors[names[idx] := palette[idx % |palette|]];
    }
    assert names[..|names|] == names;
    if NoDuplicates(palette) && |projects| <= |palette| {
      ColorsDistinct(names, palette, colors);
    }
  }

  /** With at least as many distinct colours as names, no two names share a colour. */
  lemma ColorsDistinct(names: seq<string>, palette: seq<string>, colors: map<string, string>)
    requires NoDuplicates(palette) && |names| <= |palette|
    requires forall p :: p in colors <==> p in names
    requires forall i :: 0 <= i < |names| ==> colors[names[i]] == palette[i % |palette|]
    ensures forall p, q :: p in colors && q in colors && p != q ==> colors[p] != colors[q]
  {
    forall p, q | p in colors && q in colors && p != q ensures colors[p] != colors[q] {
      var i :| 0 <= i < |names| && names[i] == p;
      var j :| 0 <= j < |names| && names[j] == q;
      ModOfSmall(i, |palette|);
      ModOfSmall(j, |palette|);
      assert colors[p] == palette[i] && colors[q] == palette[j];
      assert i != j;
      if i < j { assert palette[i] != palette[j]; } else { assert palette[j] != palette[i]; }
    }
  }

  /** An index below the palette's length is its own remainder. */
  lemma ModOfSmall(i: int, n: int)
    requires 0 <= i < n
    ensures i % n == i
  {
  }

  /** `sorted(projects.keys())` lists every project once. */
  lemma SortedKeys(projects: Dict<string, string>)
    requires DistinctKeys(projects)
    ensures |Sort(Keys(projects))| == |projects|
    ensures NoDuplicates(Sort(Keys(projects)))
    ensures forall p :: p in Sort(Keys(projects)) <==> p in Keys(projects)
  {
    var names := Sort(Keys(projects));
    SortSorted(Keys(projects));
    SortKeepsDistinct(Keys(projects));
    assert |multiset(names)| == |multiset(Keys(projects))|;
    forall p ensures p in names <==> p in Keys(projects) {
      assert p in names <==> p in multiset(Keys(projects));
    }
  }

  // ---------------------------------------------------------------------------
  // One run of the script

  /** The days of the recorded marks, which the "all time" preset starts from. */
  function EntryDates(entries: seq<Entry>): (ds: seq<int>)
    ensures |ds| == |entries|
    ensures forall i :: 0 <= i < |entries| ==> ds[i] == entries[i].date
  {
    seq(|entries|, i requires 0 <= i < |entries| => entries[i].date)
  }

  /** What the chart is drawn from. */
  datatype Chart = Chart(options: seq<string>, window: Window, baseline: seq<Marker>, categories: seq<string>,
                         drawn: seq<Entry>, height: int)

  /**
   The chart of one run. The group filter's options and the window are computed
   in the sidebar before any button of the run fires, so they come from
   `groupsAtStart` and `entriesAtStart`, the group list and the marks as they
   were then; the categories and the drawn marks come from the store as it is
   afterwards. `shown` is what the user left selected in the filter.
   */
  method BuildChart(store: Store, groupsAtStart: seq<string>, entriesAtStart: seq<Entry>,
                    preset: Preset, end: int, shown: seq<string>) returns (chart: Chart)
    ensures chart.options == Dedup(groupsAtStart) && NoDuplicates(chart.options)
    ensures chart.window == SelectWindow(preset, end, EntryDates(entriesAtStart))
    ensures chart.window.start <= chart.window.end == end
    ensures chart.baseline == BaselineMarkers(chart.window)
    ensures chart.categories == [Baseline] + ShownLabels(store.projects, shown)
    ensures chart.drawn == WindowEntries(store.entries, store.projects, shown, chart.window)
    ensures chart.height == FigureHeight(|chart.categories|) && chart.height >= 400
  {
    var w := SelectWindow(preset, end, EntryDates(entriesAtStart));
    var labels := CategoryLabels(store.projects, shown);
    var height := FigureHeight(|labels|);
    chart := Chart(Dedup(groupsAtStart), w, BaselineMarkers(w), labels, WindowEntries(store.entries, store.projects, shown, w), height);
  }

  /** The sidebar button pressed in a run, if any: a click reruns the script, so at most one fires. */
  datatype Command =
    | NoCommand
    | AddGroupCommand(groupName: string)
    | AddProjectCommand(projectName: string, projectGroup: string)
    | SaveMarkCommand(date: int, project: string, percent: int, note: string)

  /**
   One run of the script from the top: the sidebar reads the window and the group
   options from the state, the pressed button (if any) changes the state, and the
   chart is built from the state after it. A group added or a mark saved in this
   run is therefore missing from this run's options and "all time" window.
   The uploader is taken to be empty, and the table editor's write-back after the
   chart is not part of the run.
   */
  method Run(store: Store, preset: Preset, end: int, shown: seq<string>, command: Command) returns (chart: Chart)
    requires store.Valid()
    modifies store
    ensures store.Valid()
    ensures store.groups ==
              if command.AddGroupCommand? && command.groupName != "" && command.groupName !in old(store.groups)
              then old(store.groups) + [command.groupName] else old(store.groups)
    ensures store.projects ==
              if command.AddProjectCommand? && command.projectName != ""
              then Put(old(store.projects), command.projectName, command.projectGroup) else old(store.projects)
    ensures store.entries ==
              if command.SaveMarkCommand?
              then old(store.entries) + [NewEntry(old(store.projects), command.date, command.project, command.percent, command.note)]
              else old(store.entries)
    ensures chart.options == Dedup(old(store.groups))
    ensures chart.window == SelectWindow(preset, end, EntryDates(old(store.entries)))
    ensures chart.categories == [Baseline] + ShownLabels(store.projects, shown)
    ensures chart.drawn == WindowEntries(store.entries, store.projects, shown, chart.window)
    ensures chart.baseline == BaselineMarkers(chart.window)
    ensures chart.height == FigureHeight(|chart.categories|) && chart.height >= 400
  {
    var groupsAtStart, entriesAtStart := store.groups, store.entries;
    match command {
      case NoCommand =>
      case AddGroupCommand(name) =>
        var _ := store.AddGroup(name);
      case AddProjectCommand(name, group) =>
        var _ := store.AddProject(name, group);
      case SaveMarkCommand(date, project, percent, note) =>
        store.AddEntry(date, project, percent, note);
    }
    chart := BuildChart(store, groupsAtStart, entriesAtStart, preset, end, shown);
  }

  /** `max(400, row_height * max(2, n))` for `n` category rows. */
  function FigureHeight(rows: int): (h: int)
    ensures h >= 400
    ensures rows <= 7 ==> h == 400
    ensures rows >= 8 ==> h == RowHeight * rows
  {
    var r := if rows > 2 then rows else 2;
    if RowHeight * r > 400 then RowHeight * r else 400
  }

  /** More rows never make the figure shorter. */
  lemma FigureHeightMonotone(m: int, n: int)
    requires m <= n
    ensures FigureHeight(m) <= FigureHeight(n)
  {
  }
}
