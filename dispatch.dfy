/** Selection and dispatch order: the producer loop of the program's main
    routine. The listing is filtered; with fewer than two segments nothing
    is done; otherwise the segments are sorted, the last one (the newest, the
    "frontier", from which the WAL receiver resumes streaming) is held back,
    and every other segment becomes a work item, in ascending order, carrying
    the expanded command. In a dry run the items are what is printed, followed
    by the frontier as "would not process"; in a live run they are what is
    handed to the workers, in this order. */
module Dispatch {
  import opened Segments
  import opened Order
  import opened Template

  /** One segment to process and the command to run for it. */
  datatype WorkItem = WorkItem(filename: string, command: string)

  /** How one run ends. */
  datatype RunResult =
    | NothingToDo
      // fewer than two segments: exit status 0, nothing done
    | TemplateFailed(emitted: seq<WorkItem>, error: FormatError)
      // the template does not expand: fatal; `emitted`, what was produced
      // before the failure, is always empty, as the outcome does not depend
      // on the segment
    | Completed(items: seq<WorkItem>, frontier: string)
      // every item produced; the frontier is held back

  function Names(items: seq<WorkItem>): seq<string>
  {
    seq(|items|, k requires 0 <= k < |items| => items[k].filename)
  }

  /** No name occurs twice, as in any directory listing. */
  predicate Distinct(s: seq<string>)
  {
    forall i, j :: 0 <= i < j < |s| ==> s[i] != s[j]
  }

  /** Produces the run's work items from a directory listing. `join` stands
      for the path-joining routine that builds a segment's full path. */
  method Produce(listing: seq<string>, dirname: string, template: string, join: (string, string) -> string)
    returns (res: RunResult)
    ensures |Filtered(listing)| < 2 <==> res.NothingToDo?
    ensures res.TemplateFailed? <==> |Filtered(listing)| >= 2 && Expand(template, "", "").Failed?
    ensures res.TemplateFailed? ==> res.emitted == [] && res.error == Expand(template, "", "").error
    ensures res.Completed? ==>
              Sorted(Names(res.items) + [res.frontier]) &&
              multiset(Names(res.items) + [res.frontier]) == multiset(Filtered(listing))
    ensures res.Completed? ==>
              forall k :: 0 <= k < |res.items| ==>
                Expand(template, join(dirname, res.items[k].filename), res.items[k].filename)
                == Expanded(res.items[k].command)
    ensures res.Completed? ==>
              res.frontier in listing && IsXlogName(res.frontier) &&
              forall x :: x in listing && IsXlogName(x) ==> LexLessEq(x, res.frontier)
    ensures res.Completed? && Distinct(listing) ==> res.frontier !in Names(res.items)
  {
    var filenames := FilterNonXlogFiles(listing);
    if |filenames| < 2 {
      return NothingToDo;
    }
    var a := new string[|filenames|](k requires 0 <= k < |filenames| => filenames[k]);
    assert a[..] == filenames;
    SortXlogFiles(a);
    var sorted := a[..];
    var items, err := ExpandEach(sorted[..|sorted| - 1], dirname, template, join);
    if err.Some? {
      return TemplateFailed(items, err.value);
    }
    var latest := sorted[|sorted| - 1];
    NamesThenFrontier(sorted, items);
    FrontierIsGreatest(listing, Names(items), latest);
    return Completed(items, latest);
  }

  /** The producer loop: a work item for each of `names` in turn, stopping at
      the first template error. Whether the template expands does not depend
      on the segment, so an error stops the loop before any item is emitted. */
  method ExpandEach(names: seq<string>, dirname: string, template: string, join: (string, string) -> string)
    returns (items: seq<WorkItem>, err: Option<FormatError>)
    ensures err.Some? <==> names != [] && Expand(template, "", "").Failed?
    ensures err.Some? ==> items == [] && err.value == Expand(template, "", "").error
    ensures err.None? ==>
              |items| == |names| &&
              forall k :: 0 <= k < |items| ==>
                items[k].filename == names[k] &&
                Expand(template, join(dirname, names[k]), names[k]) == Expanded(items[k].command)
  {
    items := [];
    var i := 0;
    while i < |names|
      invariant 0 <= i <= |names| && |items| == i
      invariant forall k :: 0 <= k < i ==>
                  items[k].filename == names[k] &&
                  Expand(template, join(dirname, names[k]), names[k]) == Expanded(items[k].command)
      invariant i > 0 ==> Expand(template, "", "").Expanded?
    {
      var filename := names[i];
      var processCommand, e := ReplaceFormatVerbs(template, join(dirname, filename), filename);
      ExpandOutcomeIndependent(template, join(dirname, filename), filename, "", "");
      if e.Some? {
        return items, e;
      }
      items := items + [WorkItem(filename, processCommand)];
      i := i + 1;
    }
    return items, None;
  }

  /** The items' names followed by the held-back name give back the sorted list. */
  lemma NamesThenFrontier(sorted: seq<string>, items: seq<WorkItem>)
    requires |sorted| == |items| + 1
    requires forall k :: 0 <= k < |items| ==> items[k].filename == sorted[k]
    ensures sorted == Names(items) + [sorted[|sorted| - 1]]
  {
  }

  /** The last of the sorted segments is a segment of the listing, at least
      every other segment, and, when the listing has no repeated name, not
      among the names before it. */
  lemma FrontierIsGreatest(listing: seq<string>, before: seq<string>, frontier: string)
    requires Sorted(before + [frontier])
    requires multiset(before + [frontier]) == multiset(Filtered(listing))
    ensures frontier in listing && IsXlogName(frontier)
    ensures forall x :: x in listing && IsXlogName(x) ==> LexLessEq(x, frontier)
    ensures Distinct(listing) ==> frontier !in before
  {
    var s := before + [frontier];
    assert frontier in multiset(s);
    FilteredMembership(listing, frontier);
    forall x | x in listing && IsXlogName(x)
      ensures LexLessEq(x, frontier)
    {
      FilteredMembership(listing, x);
      assert x in multiset(s);
      LastIsGreatest(s, x);
    }
    if Distinct(listing) {
      FilteredCount(listing, frontier);
      DistinctCount(listing, frontier);
      assert multiset(s)[frontier] == multiset(before)[frontier] + 1;
      assert multiset(before)[frontier] == 0;
    }
  }

  lemma {:induction false} DistinctCount(s: seq<string>, x: string)
    requires Distinct(s)
    ensures multiset(s)[x] <= 1
    decreases |s|
  {
    if s != [] {
      assert s == [s[0]] + s[1..];
      DistinctCount(s[1..], x);
      if s[0] == x {
        assert x !in s[1..];
      }
    }
  }

  /** The command a live-run worker hands to the shell for a segment, as the
      worker loop is written: the worker receives only the file name and runs
      the template as typed, without expanding its verbs. */
  function WorkerCommandAsWritten(template: string, filename: string): string
  {
    template
  }

  /** As written, a live run does not run what a dry run shows: for the
      template `gzip %p` the dry run prints `gzip ` followed by the segment's
      path, while the worker runs `gzip %p` with the verb still in it. */
  lemma LiveRunIgnoresExpansion(fullPath: string, filename: string)
    requires fullPath != "%p"
    ensures Expand("gzip %p", fullPath, filename) == Expanded("gzip " + fullPath)
    ensures WorkerCommandAsWritten("gzip %p", filename) != "gzip " + fullPath
  {
    var t := "gzip %p";
    ExpandLiteral("gzip ", fullPath, filename);
    assert t[5..] == "%p" && t[5..][2..] == [];
    assert Expand(t[5..], fullPath, filename) == Expanded(fullPath + "");
    assert t == "gzip " + t[5..];
    ExpandConcat("gzip ", t[5..], fullPath, filename);
    assert fullPath + "" == fullPath;
    assert ("gzip " + fullPath)[5..] == fullPath;
  }

  /** As written, a live run runs one identical command for every segment:
      a template naming the file (`%f`) between two literal parts expands to
      different commands for two different segments, but the worker hands
      the same text to the shell for both. */
  lemma LiveRunSameCommand(u: string, v: string, p: string, f1: string, f2: string)
    requires f1 != f2
    ensures WorkerCommandAsWritten(Escape(u) + "%f" + Escape(v), f1)
         == WorkerCommandAsWritten(Escape(u) + "%f" + Escape(v), f2)
    ensures Expand(Escape(u) + "%f" + Escape(v), p, f1) == Expanded(u + f1 + v)
    ensures Expand(Escape(u) + "%f" + Escape(v), p, f2) == Expanded(u + f2 + v)
    ensures u + f1 + v != u + f2 + v
  {
    FileVerbBetween(u, v, p, f1);
    FileVerbBetween(u, v, p, f2);
    var w1, w2 := u + f1 + v, u + f2 + v;
    assert w1[|u|..|w1| - |v|] == f1;
    assert w2[|u|..|w2| - |v|] == f2;
  }

  /** `%f` between two escaped literal parts expands to the file name between them. */
  lemma FileVerbBetween(u: string, v: string, p: string, f: string)
    ensures Expand(Escape(u) + "%f" + Escape(v), p, f) == Expanded(u + f + v)
  {
    var eu, ev := Escape(u), Escape(v);
    EscapeRoundTrip(u, p, f);
    EscapeRoundTrip(v, p, f);
    var tail := "%f" + ev;
    assert tail[0] == '%' && tail[1] == 'f' && tail[2..] == ev;
    assert Expand(tail, p, f) == Prepend(f, Expand(ev, p, f));
    assert eu + "%f" + ev == eu + tail;
    ExpandConcat(eu, tail, p, f);
    assert u + (f + v) == u + f + v;
  }

  /** A run over a directory holding three segments among any number of
      other entries, in any order, with a template that expands: the two
      older segments become work items in ascending order, each with its
      expanded command, and the newest is held back. */
  method ThreeSegmentRun(listing: seq<string>, n1: string, n2: string, n3: string, others: seq<string>,
                         dirname: string, template: string, join: (string, string) -> string)
    returns (res: RunResult)
    requires multiset(listing) == multiset{n1, n2, n3} + multiset(others)
    requires IsXlogName(n1) && IsXlogName(n2) && IsXlogName(n3)
    requires forall x :: x in others ==> !IsXlogName(x)
    requires LexLessEq(n1, n2) && LexLessEq(n2, n3)
    requires Expand(template, join(dirname, n1), n1).Expanded? && Expand(template, join(dirname, n2), n2).Expanded?
    ensures res == Completed([WorkItem(n1, Expand(template, join(dirname, n1), n1).command),
                              WorkItem(n2, Expand(template, join(dirname, n2), n2).command)], n3)
  {
    res := Produce(listing, dirname, template, join);
    FilterKeepsSegments(listing, n1, n2, n3, others);
    ExpandOutcomeIndependent(template, join(dirname, n1), n1, "", "");
    assert res.Completed?;
    var names := Names(res.items);
    OrderOfThree(n1, n2, n3, names, res.frontier);
    assert |res.items| == 2;
    var i1, i2 := res.items[0], res.items[1];
    assert i1.filename == names[0] == n1 && i2.filename == names[1] == n2;
    PairOfItems(res.items);
  }

  lemma PairOfItems(items: seq<WorkItem>)
    requires |items| == 2
    ensures items == [items[0], items[1]]
  {
  }

  /** The only ascending arrangement of three names, the last held apart. */
  lemma OrderOfThree(n1: string, n2: string, n3: string, before: seq<string>, frontier: string)
    requires LexLessEq(n1, n2) && LexLessEq(n2, n3)
    requires Sorted(before + [frontier]) && multiset(before + [frontier]) == multiset([n1, n2, n3])
    ensures before == [n1, n2] && frontier == n3
  {
    var s := before + [frontier];
    SortedThree(n1, n2, n3);
    SortedUnique(s, [n1, n2, n3]);
    assert before == s[..|s| - 1] && frontier == s[|s| - 1];
  }

  lemma SortedThree(n1: string, n2: string, n3: string)
    requires LexLessEq(n1, n2) && LexLessEq(n2, n3)
    ensures Sorted([n1, n2, n3])
  {
    LexTransitive(n1, n2, n3);
  }

  lemma FilterKeepsSegments(listing: seq<string>, n1: string, n2: string, n3: string, others: seq<string>)
    requires multiset(listing) == multiset{n1, n2, n3} + multiset(others)
    requires IsXlogName(n1) && IsXlogName(n2) && IsXlogName(n3)
    requires forall x :: x in others ==> !IsXlogName(x)
    ensures multiset(Filtered(listing)) == multiset([n1, n2, n3])
  {
    forall x
      ensures multiset(Filtered(listing))[x] == multiset([n1, n2, n3])[x]
    {
      FilteredCount(listing, x);
      if IsXlogName(x) {
        assert x !in others;
      }
    }
  }
}
