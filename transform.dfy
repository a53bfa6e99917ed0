/** The stream transforms of src/index.js: `GeojsonNullTransform`, which
    buffers its input and passes the parsed document through, and
    `DifferenceTransform`, whose `operate` pre-filters the files to subtract
    by the boxes their names declare and then subtracts them one file at a
    time, stopping when the minuend is annihilated. */
module Transforms {
  import opened Wrappers
  import opened Bbox
  import opened BboxPattern
  import opened GeoJson
  import opened Difference
  import opened DifferenceWalk

  // ---------------------------------------------------------------------
  // Pre-filter by the boxes in filenames

  /** `isBboxPresentWithOverlap(filename, minuendBbox)` as written: a
      filename without a literal is kept, one whose literal JSON.parse
      rejects makes the call throw, and otherwise the planar test decides. */
  function KeepFileAsWritten(fn: string, minuendBox: Box): (r: Result<bool, string>)
    ensures (forall i: nat, ends :: !MatchesAt(fn, i, ends, true)) ==> r == Success(true)
    ensures r.Failure? <==> ReadLiteralAsWritten(fn).Malformed?
    ensures ReadLiteralAsWritten(fn).Malformed? ==> r == Failure(ReadLiteralAsWritten(fn).text)
    ensures ReadLiteralAsWritten(fn).Declared? ==> r == Success(BboxOverlap(minuendBox, ReadLiteralAsWritten(fn).box))
  {
    match ReadLiteralAsWritten(fn)
    case NoLiteral => Success(true)
    case Malformed(text) => Failure(text)
    case Declared(b) => Success(BboxOverlap(minuendBox, b))
  }

  /** `isBboxPresentWithOverlap` with both corrections: the dot escaped and
      each number read as a decimal, and the overlap taken on the sphere. */
  function KeepFile(fn: string, minuendBox: Box): (r: bool)
    ensures (forall i: nat, ends :: !MatchesAt(fn, i, ends, false)) ==> r
    ensures ReadLiteralAsWritten(fn).NoLiteral? ==> r
    ensures !r ==> exists i: nat, ends :: MatchesAt(fn, i, ends, false)
  {
    assert ReadLiteralAsWritten(fn).NoLiteral? ==> ReadLiteral(fn).None? by {
      if ReadLiteralAsWritten(fn).NoLiteral? {
        NoLiteralEitherWay(fn);
      }
    }
    match ReadLiteral(fn)
    case None => true
    case Some(b) => OverlapOnSphere(minuendBox, b)
  }

  /** The test the pre-filter applies to each filename. */
  function Passes(minuendBox: Box): string -> bool {
    fn => KeepFile(fn, minuendBox)
  }

  /** `Array.prototype.filter`: the entries that pass, in their order. */
  function Filter(files: seq<string>, pass: string -> bool): (kept: seq<string>)
    ensures |kept| <= |files|
  {
    if files == [] then []
    else (if pass(files[0]) then [files[0]] else []) + Filter(files[1..], pass)
  }

  /** `filesToSubtract.filter(fn => isBboxPresentWithOverlap(fn, minuendBbox))`. */
  function Prefilter(files: seq<string>, minuendBox: Box): (kept: seq<string>)
    ensures |kept| <= |files|
  {
    Filter(files, Passes(minuendBox))
  }

  /** `idx` lists, in increasing order, positions of `files` whose entries
      make up `kept`. */
  ghost predicate Picks(kept: seq<string>, files: seq<string>, idx: seq<nat>) {
    |idx| == |kept| &&
    (forall k :: 0 <= k < |idx| ==> idx[k] < |files| && kept[k] == files[idx[k]]) &&
    (forall k, l :: 0 <= k < l < |idx| ==> idx[k] < idx[l])
  }

  /** Positions one further on. */
  function Shift(idx: seq<nat>): (r: seq<nat>)
    ensures |r| == |idx| && forall k :: 0 <= k < |r| ==> r[k] == idx[k] + 1
    ensures forall j: nat :: j in r <==> j > 0 && j - 1 in idx
  {
    seq(|idx|, k requires 0 <= k < |idx| => idx[k] + 1)
  }

  /** Positions picked from the tail of a list are picked, one further on,
      from the whole list, with or without its head in front. */
  lemma ShiftPicks(kept: seq<string>, files: seq<string>, idx: seq<nat>)
    requires files != [] && Picks(kept, files[1..], idx)
    ensures Picks(kept, files, Shift(idx))
    ensures Picks([files[0]] + kept, files, [0] + Shift(idx))
  {
    var sh := Shift(idx);
    forall k | 0 <= k < |sh| ensures sh[k] < |files| && kept[k] == files[sh[k]] {
      assert files[1..][idx[k]] == files[idx[k] + 1];
    }
    PicksCons(kept, files, sh);
  }

  /** Position 0 can be picked in front of positions that are all past it. */
  lemma PicksCons(kept: seq<string>, files: seq<string>, pos: seq<nat>)
    requires files != [] && Picks(kept, files, pos)
    requires forall k :: 0 <= k < |pos| ==> pos[k] > 0
    ensures Picks([files[0]] + kept, files, [0] + pos)
  {
    var whole, all := [files[0]] + kept, [0] + pos;
    forall k | 0 <= k < |all| ensures all[k] < |files| && whole[k] == files[all[k]] {
      if k > 0 {
        assert all[k] == pos[k - 1] && whole[k] == kept[k - 1];
      }
    }
    forall k, l | 0 <= k < l < |all| ensures all[k] < all[l] {
      if k > 0 {
        assert all[k] == pos[k - 1] && all[l] == pos[l - 1];
      }
    }
  }

  /** On the letter literal the pre-filter as written throws, which aborts
      the whole run; corrected, the file is simply kept. */
  lemma LetterLiteralAtThePrefilter(minuendBox: Box)
    ensures KeepFileAsWritten(LetterLiteral, minuendBox) == Failure(LetterLiteral)
    ensures KeepFile(LetterLiteral, minuendBox)
  {
    AsWrittenRejectsLetterLiteral();
    CorrectedIgnoresLetterLiteral();
  }

  /** `Array.prototype.filter` with a test that may throw: the first entry
      whose test throws aborts the whole filter with its error. */
  function TryFilter(files: seq<string>, test: string -> Result<bool, string>): (r: Result<seq<string>, string>)
    ensures r.Success? ==> |r.value| <= |files|
  {
    if files == [] then Success([])
    else
      match test(files[0])
      case Failure(e) => Failure(e)
      case Success(keep) =>
        match TryFilter(files[1..], test)
        case Failure(e) => Failure(e)
        case Success(rest) => Success((if keep then [files[0]] else []) + rest)
  }

  /** The entries a throwing test keeps. */
  function Accepted(test: string -> Result<bool, string>): string -> bool {
    fn => test(fn) == Success(true)
  }

  /** The filter aborts exactly when some entry's test throws, with the
      error of the first such entry; otherwise it is the plain filter. */
  lemma {:induction false} TryFilterOutcome(files: seq<string>, test: string -> Result<bool, string>)
    ensures TryFilter(files, test).Success? <==> forall k :: 0 <= k < |files| ==> test(files[k]).Success?
    ensures TryFilter(files, test).Success? ==> TryFilter(files, test).value == Filter(files, Accepted(test))
    ensures TryFilter(files, test).Failure? ==>
              exists k :: 0 <= k < |files| && test(files[k]) == Failure(TryFilter(files, test).error) &&
                          forall j :: 0 <= j < k ==> test(files[j]).Success?
    decreases |files|
  {
    if files != [] {
      TryFilterOutcome(files[1..], test);
      assert forall k :: 1 <= k < |files| ==> files[1..][k - 1] == files[k];
      var r := TryFilter(files, test);
      if test(files[0]).Success? && TryFilter(files[1..], test).Failure? {
        var k :| 0 <= k < |files[1..]| && test(files[1..][k]) == Failure(TryFilter(files[1..], test).error) &&
                 forall j :: 0 <= j < k ==> test(files[1..][j]).Success?;
        assert test(files[k + 1]) == Failure(r.error);
        assert forall j :: 0 <= j < k + 1 ==> test(files[j]).Success? by {
          forall j | 0 < j < k + 1 ensures test(files[j]).Success? {
            assert files[j] == files[1..][j - 1];
          }
        }
      }
    }
  }

  /** The test the pre-filter as written applies to each filename. */
  function PassesAsWritten(minuendBox: Box): string -> Result<bool, string> {
    fn => KeepFileAsWritten(fn, minuendBox)
  }

  /** `filesToSubtract.filter(fn => isBboxPresentWithOverlap(fn, minuendBbox))`
      as written: a literal JSON.parse rejects throws out of the filter. */
  function PrefilterAsWritten(files: seq<string>, minuendBox: Box): (r: Result<seq<string>, string>)
    ensures r.Success? ==> |r.value| <= |files|
  {
    TryFilter(files, PassesAsWritten(minuendBox))
  }

  /** The test as written throws exactly on a literal JSON.parse rejects,
      with that literal's text as the error, and keeps a file whose name
      declares no literal or a box that `bboxOverlap` accepts. */
  lemma KeepFileAsWrittenMeaning(fn: string, minuendBox: Box)
    ensures KeepFileAsWritten(fn, minuendBox).Failure? <==> ReadLiteralAsWritten(fn).Malformed?
    ensures KeepFileAsWritten(fn, minuendBox).Failure? ==>
              ReadLiteralAsWritten(fn) == Malformed(KeepFileAsWritten(fn, minuendBox).error)
    ensures KeepFileAsWritten(fn, minuendBox) == Success(true) <==>
              ReadLiteralAsWritten(fn).NoLiteral? ||
              (ReadLiteralAsWritten(fn).Declared? && BboxOverlap(minuendBox, ReadLiteralAsWritten(fn).box))
  {
  }

  /** The pre-filter as written aborts exactly when some filename holds a
      literal that JSON.parse rejects. */
  lemma PrefilterAsWrittenAborts(files: seq<string>, minuendBox: Box)
    ensures PrefilterAsWritten(files, minuendBox).Failure? <==>
              exists k :: 0 <= k < |files| && ReadLiteralAsWritten(files[k]).Malformed?
  {
    var test := PassesAsWritten(minuendBox);
    TryFilterOutcome(files, test);
    if PrefilterAsWritten(files, minuendBox).Failure? {
      var k :| 0 <= k < |files| && test(files[k]).Failure?;
      KeepFileAsWrittenMeaning(files[k], minuendBox);
    } else {
      forall k | 0 <= k < |files| ensures !ReadLiteralAsWritten(files[k]).Malformed? {
        KeepFileAsWrittenMeaning(files[k], minuendBox);
      }
    }
  }

  /** When it aborts, the error is the first rejected literal of the list. */
  lemma PrefilterAsWrittenFirstRejected(files: seq<string>, minuendBox: Box)
    requires PrefilterAsWritten(files, minuendBox).Failure?
    ensures exists k :: 0 <= k < |files| &&
                        ReadLiteralAsWritten(files[k]) == Malformed(PrefilterAsWritten(files, minuendBox).error) &&
                        forall j :: 0 <= j < k ==> !ReadLiteralAsWritten(files[j]).Malformed?
  {
    var test := PassesAsWritten(minuendBox);
    TryFilterOutcome(files, test);
    var r := PrefilterAsWritten(files, minuendBox);
    var k :| 0 <= k < |files| && test(files[k]) == Failure(r.error) &&
             forall j :: 0 <= j < k ==> test(files[j]).Success?;
    KeepFileAsWrittenMeaning(files[k], minuendBox);
    forall j | 0 <= j < k ensures !ReadLiteralAsWritten(files[j]).Malformed? {
      KeepFileAsWrittenMeaning(files[j], minuendBox);
    }
  }

  /** Otherwise it keeps, in order, the files whose name declares no
      literal or a box that `bboxOverlap` accepts. */
  lemma PrefilterAsWrittenKeeps(files: seq<string>, minuendBox: Box, fn: string)
    requires PrefilterAsWritten(files, minuendBox).Success?
    ensures Picks(PrefilterAsWritten(files, minuendBox).value, files,
                  KeptPositions(files, Accepted(PassesAsWritten(minuendBox))))
    ensures fn in PrefilterAsWritten(files, minuendBox).value <==>
              fn in files &&
              (ReadLiteralAsWritten(fn).NoLiteral? ||
               (ReadLiteralAsWritten(fn).Declared? && BboxOverlap(minuendBox, ReadLiteralAsWritten(fn).box)))
  {
    var test := PassesAsWritten(minuendBox);
    TryFilterOutcome(files, test);
    FilterPicksKeptPositions(files, Accepted(test));
    FilterMembers(files, Accepted(test), fn);
    KeepFileAsWrittenMeaning(fn, minuendBox);
  }

  /** Every entry passes: the filter keeps the whole list. */
  lemma {:induction false} FilterAll(files: seq<string>, pass: string -> bool)
    requires forall k :: 0 <= k < |files| ==> pass(files[k])
    ensures Filter(files, pass) == files
    decreases |files|
  {
    if files != [] {
      assert forall k :: 1 <= k < |files| ==> files[1..][k - 1] == files[k];
      FilterAll(files[1..], pass);
      assert files == [files[0]] + files[1..];
    }
  }

  /** On filenames that hold no literal, the pre-filter as written and the
      corrected one both keep every file. */
  lemma NoLiteralsKeptByBoth(files: seq<string>, minuendBox: Box)
    requires forall k :: 0 <= k < |files| ==> ReadLiteralAsWritten(files[k]).NoLiteral?
    ensures PrefilterAsWritten(files, minuendBox) == Success(files)
    ensures Prefilter(files, minuendBox) == files
  {
    var test := PassesAsWritten(minuendBox);
    TryFilterOutcome(files, test);
    assert forall k :: 0 <= k < |files| ==> test(files[k]) == Success(true);
    FilterAll(files, Accepted(test));
    forall k | 0 <= k < |files| ensures Passes(minuendBox)(files[k]) {
      NoLiteralEitherWay(files[k]);
    }
    FilterAll(files, Passes(minuendBox));
  }

  /** The positions of the entries that pass, in increasing order. */
  function KeptPositions(files: seq<string>, pass: string -> bool): seq<nat> {
    if files == [] then []
    else (if pass(files[0]) then [0] else []) + Shift(KeptPositions(files[1..], pass))
  }

  lemma {:induction false} FilterPicksKeptPositions(files: seq<string>, pass: string -> bool)
    ensures Picks(Filter(files, pass), files, KeptPositions(files, pass))
    decreases |files|
  {
    if files != [] {
      FilterPicksKeptPositions(files[1..], pass);
      ShiftPicks(Filter(files[1..], pass), files, KeptPositions(files[1..], pass));
    }
  }

  lemma {:induction false} KeptPositionsPass(files: seq<string>, pass: string -> bool)
    ensures forall j :: 0 <= j < |files| ==> (j in KeptPositions(files, pass) <==> pass(files[j]))
    decreases |files|
  {
    if files != [] {
      KeptPositionsPass(files[1..], pass);
      var tail := KeptPositions(files[1..], pass);
      forall j | 0 < j < |files| ensures j in KeptPositions(files, pass) <==> pass(files[j]) {
        assert files[j] == files[1..][j - 1];
        assert j in Shift(tail) <==> j - 1 in tail;
      }
    }
  }

  /** The pre-filter keeps exactly the files that pass, in their order:
      the result is the subsequence of `files` at the passing positions. */
  lemma PrefilterIsOrderedSelection(files: seq<string>, minuendBox: Box)
    ensures Picks(Prefilter(files, minuendBox), files, KeptPositions(files, Passes(minuendBox)))
    ensures forall j :: 0 <= j < |files| ==>
              (j in KeptPositions(files, Passes(minuendBox)) <==> KeepFile(files[j], minuendBox))
  {
    FilterPicksKeptPositions(files, Passes(minuendBox));
    KeptPositionsPass(files, Passes(minuendBox));
  }

  /** An entry survives the filter exactly when it is listed and passes. */
  lemma {:induction false} FilterMembers(files: seq<string>, pass: string -> bool, fn: string)
    ensures fn in Filter(files, pass) <==> fn in files && pass(fn)
    decreases |files|
  {
    if files != [] {
      FilterMembers(files[1..], pass, fn);
      assert files == [files[0]] + files[1..];
    }
  }

  /** The corrected test keeps a filename that declares no box, or one that
      meets the minuend's box on the sphere. */
  lemma KeepFileMeaning(fn: string, minuendBox: Box)
    ensures KeepFile(fn, minuendBox) <==>
            (forall i: nat, ends :: !MatchesAt(fn, i, ends, false)) ||
            OverlapOnSphere(minuendBox, ReadLiteral(fn).value)
  {
  }

  /** A file is kept exactly when its name declares no box, or declares one
      that meets the minuend's box. */
  lemma PrefilterKeeps(files: seq<string>, minuendBox: Box, fn: string)
    ensures fn in Prefilter(files, minuendBox) <==>
            fn in files &&
            ((forall i: nat, ends :: !MatchesAt(fn, i, ends, false)) ||
             OverlapOnSphere(minuendBox, ReadLiteral(fn).value))
  {
    FilterMembers(files, Passes(minuendBox), fn);
    KeepFileMeaning(fn, minuendBox);
  }

  // ---------------------------------------------------------------------
  // The driver

  /** How a run ended: all subtracted, the minuend annihilated, a file that
      could not be read or parsed, or a filename literal that JSON.parse
      rejected in the pre-filter. */
  datatype Status = Finished(geojson: Node) | Annihilated | Unreadable(file: string) | Rejected(text: string)

  /** A run of the driver: how it ended, the warnings it emitted in order,
      and the files it read, in order. */
  datatype Run = Run(status: Status, warnings: seq<string>, read: seq<string>)

  /** What `operate` returns for a run, or the error it throws. */
  function Output(run: Run): (r: Result<Node, string>)
    ensures run.status.Annihilated? ==> r == Success(EmptyFeatureCollection)
    ensures r.Failure? <==> run.status.Unreadable? || run.status.Rejected?
  {
    match run.status
    case Finished(g) => Success(g)
    case Annihilated => Success(EmptyFeatureCollection)
    case Unreadable(f) => Failure("Unable to parse JSON from " + f)
    case Rejected(text) => Failure(text)
  }

  /** A run that reached `g` after its first part, continued by `rest`. */
  function Extend(first: Run, rest: Run): Run {
    Run(rest.status, first.warnings + rest.warnings, first.read + rest.read)
  }

  /** The `every` loop: read each file, subtract it as a one-element list,
      and stop at the first null result or unreadable file. `load` is
      reading and parsing a file. */
  function Walk(g: Node, files: seq<string>, turf: Turf, load: string -> Option<Node>): (r: Run)
    decreases |files|
    ensures |r.read| <= |files|
    ensures !r.status.Rejected?
  {
    if files == [] then Run(Finished(g), [], [])
    else
      match load(files[0])
      case None => Run(Unreadable(files[0]), [], [files[0]])
      case Some(s) =>
        var o := Subtract(g, [s], turf);
        if o.node.None? then Run(Annihilated, o.warnings, [files[0]])
        else Extend(Run(Finished(g), o.warnings, [files[0]]), Walk(o.node.value, files[1..], turf, load))
  }

  /** The driver after the pre-filter: with no file left it still makes
      one pass with no subtrahends, for its warnings. */
  function Drive(g: Node, files: seq<string>, turf: Turf, load: string -> Option<Node>): (r: Run)
    ensures files == [] ==> r == Run(Finished(g), Subtract(g, [], turf).warnings, [])
    ensures files != [] ==> r == Walk(g, files, turf, load)
  {
    if files == [] then Run(Finished(Subtract(g, [], turf).node.value), Subtract(g, [], turf).warnings, [])
    else Walk(g, files, turf, load)
  }

  /** A run continued by walking `b` from where it left off, if it finished. */
  function Continue(first: Run, b: seq<string>, turf: Turf, load: string -> Option<Node>): Run {
    if first.status.Finished? then Extend(first, Walk(first.status.geojson, b, turf, load)) else first
  }

  /** Continuing a run that began with one more file and its warnings. */
  lemma ContinueAfterFile(ws: seq<string>, f: string, run: Run, b: seq<string>, turf: Turf,
                          load: string -> Option<Node>)
    ensures var c := Continue(run, b, turf, load);
            Continue(Run(run.status, ws + run.warnings, [f] + run.read), b, turf, load) ==
            Run(c.status, ws + c.warnings, [f] + c.read)
  {
    if run.status.Finished? {
      ExtendAfterHead(ws, f, run, Walk(run.status.geojson, b, turf, load));
    }
  }

  /** Extending a run that began with one more file and its warnings. */
  lemma ExtendAfterHead(ws: seq<string>, f: string, run: Run, last: Run)
    ensures Extend(Run(run.status, ws + run.warnings, [f] + run.read), last) ==
            Run(last.status, ws + Extend(run, last).warnings, [f] + Extend(run, last).read)
  {
    assert ws + (run.warnings + last.warnings) == (ws + run.warnings) + last.warnings;
    assert [f] + (run.read + last.read) == ([f] + run.read) + last.read;
  }

  /** Walking `a + b` is walking `a` and then, if that finished, walking
      `b` from where `a` left off: files are subtracted strictly in order,
      each from the result of the ones before. */
  lemma {:induction false} WalkAppend(g: Node, a: seq<string>, b: seq<string>, turf: Turf, load: string -> Option<Node>)
    ensures Walk(g, a + b, turf, load) == Continue(Walk(g, a, turf, load), b, turf, load)
    decreases |a|
  {
    if a == [] {
      assert a + b == b;
    } else {
      assert (a + b)[0] == a[0] && (a + b)[1..] == a[1..] + b;
      if load(a[0]).Some? && Subtract(g, [load(a[0]).value], turf).node.Some? {
        var o := Subtract(g, [load(a[0]).value], turf);
        WalkAppend(o.node.value, a[1..], b, turf, load);
        WalkStep(g, a, turf, load);
        WalkStep(g, a + b, turf, load);
        ContinueAfterFile(o.warnings, a[0], Walk(o.node.value, a[1..], turf, load), b, turf, load);
      }
    }
  }

  /** The walk reads a prefix of the files, all of them when it finishes,
      and exactly one more than it subtracted when it stops early. */
  lemma WalkReadsPrefix(g: Node, files: seq<string>, turf: Turf, load: string -> Option<Node>)
    ensures Walk(g, files, turf, load).read <= files
    ensures Walk(g, files, turf, load).status.Finished? ==> Walk(g, files, turf, load).read == files
    ensures Walk(g, files, turf, load).status.Unreadable? ==>
              var read := Walk(g, files, turf, load).read;
              |read| >= 1 && read[|read| - 1] == Walk(g, files, turf, load).status.file
    ensures Walk(g, files, turf, load).status.Annihilated? ==> |Walk(g, files, turf, load).read| >= 1
  {
    WalkReadsOnlyPrefix(g, files, turf, load);
    WalkStopsAfterRead(g, files, turf, load);
  }

  /** A walk that goes on past the first file is that file followed by the
      walk over the rest from the reduced minuend. */
  lemma WalkStep(g: Node, files: seq<string>, turf: Turf, load: string -> Option<Node>)
    requires files != [] && load(files[0]).Some?
    requires Subtract(g, [load(files[0]).value], turf).node.Some?
    ensures var o := Subtract(g, [load(files[0]).value], turf);
            var rest := Walk(o.node.value, files[1..], turf, load);
            Walk(g, files, turf, load) == Run(rest.status, o.warnings + rest.warnings, [files[0]] + rest.read)
  {
  }

  /** The files read are a prefix of the list, all of it when the walk finished. */
  lemma {:induction false} WalkReadsOnlyPrefix(g: Node, files: seq<string>, turf: Turf, load: string -> Option<Node>)
    ensures Walk(g, files, turf, load).read <= files
    ensures Walk(g, files, turf, load).status.Finished? ==> Walk(g, files, turf, load).read == files
    decreases |files|
  {
    if files != [] && load(files[0]).Some? {
      var o := Subtract(g, [load(files[0]).value], turf);
      if o.node.Some? {
        WalkStep(g, files, turf, load);
        WalkReadsOnlyPrefix(o.node.value, files[1..], turf, load);
        assert files == [files[0]] + files[1..];
      }
    }
  }

  /** A walk that stopped read at least one file, and the unreadable one last. */
  lemma {:induction false} WalkStopsAfterRead(g: Node, files: seq<string>, turf: Turf, load: string -> Option<Node>)
    ensures Walk(g, files, turf, load).status.Unreadable? ==>
              var read := Walk(g, files, turf, load).read;
              |read| >= 1 && read[|read| - 1] == Walk(g, files, turf, load).status.file
    ensures Walk(g, files, turf, load).status.Annihilated? ==> |Walk(g, files, turf, load).read| >= 1
    decreases |files|
  {
    if files != [] && load(files[0]).Some? {
      var o := Subtract(g, [load(files[0]).value], turf);
      if o.node.Some? {
        WalkStep(g, files, turf, load);
        WalkStopsAfterRead(o.node.value, files[1..], turf, load);
        var rest := Walk(o.node.value, files[1..], turf, load);
        if rest.status.Unreadable? {
          assert ([files[0]] + rest.read)[|rest.read|] == rest.read[|rest.read| - 1];
        }
      }
    }
  }

  /** When the `k`-th file annihilates the running minuend, the result is
      the empty FeatureCollection and no later file is read. */
  lemma WalkStopsAtAnnihilation(g: Node, files: seq<string>, k: nat, turf: Turf, load: string -> Option<Node>)
    requires k < |files| && Walk(g, files[..k], turf, load).status.Finished?
    requires load(files[k]).Some?
    requires Subtract(Walk(g, files[..k], turf, load).status.geojson, [load(files[k]).value], turf).node.None?
    ensures Output(Walk(g, files, turf, load)) == Success(EmptyFeatureCollection)
    ensures Walk(g, files, turf, load).read == files[..k + 1]
  {
    assert files == files[..k] + files[k..];
    WalkAppend(g, files[..k], files[k..], turf, load);
    assert files[k..][0] == files[k];
    WalkReadsPrefix(g, files[..k], turf, load);
    assert files[..k] + [files[k]] == files[..k + 1];
  }

  /** Loading every file in order, or `None` if one cannot be loaded. */
  function LoadAll(files: seq<string>, load: string -> Option<Node>): (r: Option<seq<Node>>)
    ensures r.Some? ==> |r.value| == |files|
  {
    if files == [] then Some([])
    else
      match load(files[0])
      case None => None
      case Some(s) =>
        match LoadAll(files[1..], load)
        case None => None
        case Some(rest) => Some([s] + rest)
  }

  /** For a Polygon or MultiPolygon minuend, subtracting the files one at a
      time is subtracting all of their contents at once: the same result,
      annihilation in the same case, and the same warnings in the same order. */
  lemma {:induction false} WalkOfPolygonIsOneSubtraction(g: Node, files: seq<string>, turf: Turf,
                                                         load: string -> Option<Node>)
    requires IsOperand(g) && KeepsPolygons(turf) && LoadAll(files, load).Some?
    ensures var o := Subtract(g, LoadAll(files, load).value, turf);
            var run := Walk(g, files, turf, load);
            run.warnings == o.warnings &&
            (o.node.None? <==> run.status.Annihilated?) &&
            (o.node.Some? ==> run.status == Finished(o.node.value))
    decreases |files|
  {
    if files != [] {
      var subs := LoadAll(files, load).value;
      var s := subs[0];
      assert subs == [s] + subs[1..];
      FoldAppend(g, [s], subs[1..], turf);
      var first := Fold(g, [s], turf);
      assert [s][1..] == [];
      if first.node.Some? {
        var h := first.node.value;
        FoldKeepsPolygon(g, [s], turf);
        WalkOfPolygonIsOneSubtraction(h, files[1..], turf, load);
      }
    }
  }

  /** Any other minuend is never annihilated: every loadable file is read. */
  lemma {:induction false} NonPolygonMinuendReadsEveryFile(g: Node, files: seq<string>, turf: Turf,
                                                          load: string -> Option<Node>)
    requires !IsOperand(g) && LoadAll(files, load).Some?
    ensures Walk(g, files, turf, load).status.Finished?
    ensures Walk(g, files, turf, load).read == files
    decreases |files|
  {
    if files != [] {
      var s := load(files[0]).value;
      var o := Subtract(g, [s], turf);
      var rest := Walk(o.node.value, files[1..], turf, load);
      NonPolygonMinuendReadsEveryFile(o.node.value, files[1..], turf, load);
      assert Walk(g, files, turf, load) == Run(rest.status, o.warnings + rest.warnings, [files[0]] + rest.read);
      assert files == [files[0]] + files[1..];
    }
  }

  /** One turn of the driver loop, seen from the whole walk: the file at
      `i` either stops the walk or moves it on to the next position. */
  lemma WalkFrom(g: Node, warnings: seq<string>, files: seq<string>, i: nat, turf: Turf,
                 load: string -> Option<Node>)
    requires i < |files|
    ensures var run := Extend(Run(Finished(g), warnings, files[..i]), Walk(g, files[i..], turf, load));
            match load(files[i])
            case None => run == Run(Unreadable(files[i]), warnings, files[..i + 1])
            case Some(s) =>
              var o := Subtract(g, [s], turf);
              if o.node.None? then run == Run(Annihilated, warnings + o.warnings, files[..i + 1])
              else run == Extend(Run(Finished(o.node.value), warnings + o.warnings, files[..i + 1]),
                                 Walk(o.node.value, files[i + 1..], turf, load))
  {
    assert files[i..][0] == files[i] && files[i..][1..] == files[i + 1..];
    assert files[..i + 1] == files[..i] + [files[i]];
    if load(files[i]).None? {
      assert warnings + [] == warnings;
    } else {
      var o := Subtract(g, [load(files[i]).value], turf);
      if o.node.Some? {
        WalkStep(g, files[i..], turf, load);
        ExtendAfterFile(g, o.node.value, warnings, files[..i], o.warnings, files[i],
                        Walk(o.node.value, files[i + 1..], turf, load));
      }
    }
  }

  /** A file subtracted at the head of the rest of a walk can be moved to
      the part already done. */
  lemma ExtendAfterFile(g: Node, h: Node, ws: seq<string>, read: seq<string>, ow: seq<string>, f: string, rest: Run)
    ensures Extend(Run(Finished(g), ws, read), Run(rest.status, ow + rest.warnings, [f] + rest.read)) ==
            Extend(Run(Finished(h), ws + ow, read + [f]), rest)
  {
    assert ws + (ow + rest.warnings) == (ws + ow) + rest.warnings;
    assert read + ([f] + rest.read) == (read + [f]) + rest.read;
  }

  /** The subtraction part of `operate` (from the empty-list pass on): the
      files are loaded and subtracted one at a time, as the driver says. */
  method SubtractFiles(geojson: Node, files: seq<string>, turf: Turf, load: string -> Option<Node>)
    returns (run: Run)
    ensures run == Drive(geojson, files, turf, load)
  {
    if |files| == 0 {
      var o := SubtractGeojsons(geojson, [], turf);
      return Run(Finished(o.node.value), o.warnings, []);
    }
    var current := geojson;
    var warnings: seq<string> := [];
    var i := 0;
    while i < |files|
      invariant 0 <= i <= |files|
      invariant Extend(Run(Finished(current), warnings, files[..i]), Walk(current, files[i..], turf, load))
                == Walk(geojson, files, turf, load)
    {
      var fileToSubtract := files[i];
      WalkFrom(current, warnings, files, i, turf, load);
      var subtrahend := load(fileToSubtract);
      if subtrahend.None? {
        return Run(Unreadable(fileToSubtract), warnings, files[..i + 1]);
      }
      var o := SubtractGeojsons(current, [subtrahend.value], turf);
      if o.node.None? {
        return Run(Annihilated, warnings + o.warnings, files[..i + 1]);
      }
      current := o.node.value;
      warnings := warnings + o.warnings;
      i := i + 1;
    }
    assert files[..i] == files;
    run := Run(Finished(current), warnings, files);
  }

  // ---------------------------------------------------------------------
  // The transforms

  /** The pass-through transform: it buffers every chunk and, at the end,
      emits the parsed document unchanged. */
  class GeojsonNullTransform {
    var input: string

    constructor ()
      ensures input == ""
    {
      input := "";
    }

    /** `_transform`: append a chunk to the buffer. */
    method Transform(chunk: string)
      modifies this
      ensures input == old(input) + chunk
    {
      input := input + chunk;
    }

    /** `_flush` with the identity `operate`: the parsed input, or the
        parse error. `parse` is JSON.parse on the whole buffer. */
    method Flush(parse: string -> Option<Node>) returns (r: Result<Node, string>)
      ensures parse(input).Some? ==> r == Success(parse(input).value)
      ensures parse(input).None? ==> r == Failure("Unable to parse JSON from stdin")
    {
      var geojson := parse(input);
      if geojson.None? {
        return Failure("Unable to parse JSON from stdin");
      }
      r := Success(Operate(geojson.value));
    }

    /** The null `operate`: nothing is changed. */
    function Operate(geojson: Node): (r: Node)
      ensures r == geojson
    {
      geojson
    }
  }

  /** The difference transform's own state: the files to subtract, which
      `operate` narrows in place, and whether to respect filename boxes.
      Buffering and flushing are those of GeojsonNullTransform. */
  class DifferenceTransform {
    var filesToSubtract: seq<string>
    var respectBboxesInFilenames: bool

    constructor (files: seq<string>, respect: bool)
      ensures filesToSubtract == files && respectBboxesInFilenames == respect
    {
      filesToSubtract := files;
      respectBboxesInFilenames := respect;
    }

    /** `operate(geojson)`. `bboxOf` is `turfBbox`, `load` reads and parses
        a file. When the option is set the file list is narrowed by the
        pre-filter as written; if that throws, the run ends there with the
        rejected literal and the list is left as it was. Otherwise the run
        is the driver's. */
    method Operate(geojson: Node, turf: Turf, bboxOf: Node -> Box, load: string -> Option<Node>)
      returns (run: Run)
      modifies this
      ensures respectBboxesInFilenames == old(respectBboxesInFilenames)
      ensures var pre := PrefilterAsWritten(old(filesToSubtract), bboxOf(geojson));
              old(respectBboxesInFilenames) && pre.Failure? ==>
                filesToSubtract == old(filesToSubtract) && run == Run(Rejected(pre.error), [], [])
      ensures var pre := PrefilterAsWritten(old(filesToSubtract), bboxOf(geojson));
              old(respectBboxesInFilenames) && pre.Success? ==>
                filesToSubtract == pre.value && run == Drive(geojson, filesToSubtract, turf, load)
      ensures !old(respectBboxesInFilenames) ==>
                filesToSubtract == old(filesToSubtract) && run == Drive(geojson, filesToSubtract, turf, load)
    {
      if respectBboxesInFilenames {
        var minuendBbox := bboxOf(geojson);
        var kept := PrefilterAsWritten(filesToSubtract, minuendBbox);
        if kept.Failure? {
          return Run(Rejected(kept.error), [], []);
        }
        filesToSubtract := kept.value;
      }
      run := SubtractFiles(geojson, filesToSubtract, turf, load);
    }
  }
}
