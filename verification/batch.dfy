/**
 * The batch path (`batch_generate_certificates`): walk the roster in order,
 * skip the entries that fail the checks, and write one HTML certificate per
 * valid entry, named after its roll. Template rendering, the clock, the
 * digest and which output paths can be opened for writing are parameters;
 * the record store is never touched.
 */
module Batch {
  import opened Results
  import opened Text
  import opened CertHash
  import opened Roster
  import opened Rewrite
  import opened Loop
  import Issue
  import Store

  const EventName: string := "RUET Cyber Fest CTF 2025"
  const CertDir: string := "certificate"

  /** The template variables of one certificate. */
  datatype CertData = CertData(
    displayName: string,
    position: nat,
    certHash: string,
    eventName: string,
    eventDate: string,
    certificateGenerated: bool)

  /** One HTML file written to the output directory, with the index of the entry it came from. */
  datatype Output = Output(source: nat, path: string, html: string)

  /** `entry.get('name', '')` is an integer, whose `.strip()` raises. */
  predicate Crashes(e: Entry) {
    e.name.Int?
  }

  /** The batch check: stripped name non-empty, `str(position)` all digits, roll truthy. */
  predicate Accepts(e: Entry) {
    && e.name.OrEmpty().Str?
    && Strip(e.name.OrEmpty().s) != []
    && ValidPosition(e.position.OrEmpty())
    && e.roll.OrEmpty().Truthy()
  }

  /** The per-entry check of `batch_generate_certificates`: skip, crash on `.strip()`, or pass with the values to write. */
  function Classify(e: Entry): (st: Step)
    ensures st.Crash? <==> Crashes(e)
    ensures st.Emit? <==> Accepts(e)
    ensures st.Emit? ==>
      && st.name == Strip(e.name.s)
      && st.name != []
      && st.position == ParseNat(e.position.Text())
      && st.roll == e.roll.Text()
  {
    var name := e.name.OrEmpty();
    if name.Int? then Crash
    else
      var stripped := Strip(name.s);
      var position := e.position.OrEmpty();
      var roll := e.roll.OrEmpty();
      if stripped == [] || !ValidPosition(position) || !roll.Truthy() then Skip
      else Emit(stripped, PositionValue(position), roll.Text())
  }

  /**
   * The entry ends the run: its name is an integer, or it passes the check
   * but its output file cannot be opened for writing (a roll such as `a/b`
   * names a file in a directory that was never created).
   */
  predicate Fails(e: Entry, writable: string -> bool) {
    Crashes(e) || (Accepts(e) && !writable(HtmlPath(e.roll.Text())))
  }

  /** One entry of `batch_generate_certificates`: the check, then opening the output file, which may raise. */
  function Fate(e: Entry, writable: string -> bool): (st: Step)
    ensures st.Crash? <==> Fails(e, writable)
    ensures st.Emit? <==> Accepts(e) && writable(HtmlPath(e.roll.Text()))
    ensures st.Emit? ==> st == Classify(e)
  {
    match Classify(e)
    case Emit(name, position, roll) =>
      if writable(HtmlPath(roll)) then Emit(name, position, roll) else Crash
    case other => other
  }

  /** `os.path.join(directory, file)` on POSIX: an absolute `file` replaces the directory. */
  function PathJoin(directory: string, file: string): (p: string)
    ensures |file| > 0 && file[0] == '/' ==> p == file
    ensures (|file| == 0 || file[0] != '/') ==>
      && |p| >= |directory| + |file|
      && p[..|directory|] == directory
      && p[|p| - |file|..] == file
    ensures (|file| == 0 || file[0] != '/') && |directory| > 0 && directory[|directory| - 1] != '/' ==>
      p == directory + "/" + file
    ensures (|file| == 0 || file[0] != '/') && (|directory| == 0 || directory[|directory| - 1] == '/') ==>
      p == directory + file
  {
    if |file| > 0 && file[0] == '/' then file
    else if |directory| == 0 || directory[|directory| - 1] == '/' then directory + file
    else directory + "/" + file
  }

  /**
   * `os.path.join(cert_dir, f"{roll}.html")`: a relative roll names a file
   * inside the output directory; a roll that starts with `/` names an
   * absolute path outside it.
   */
  function HtmlPath(roll: string): (path: string)
    ensures (roll == [] || roll[0] != '/') ==> path == "certificate/" + roll + ".html"
    ensures (roll != [] && roll[0] == '/') ==> path == roll + ".html"
  {
    assert CertDir[|CertDir| - 1] == 'e';
    assert roll != [] ==> (roll + ".html")[0] == roll[0];
    PathJoin(CertDir, roll + ".html")
  }

  /** The certificate file produced for the valid entry at index `i`, stamped by the clock reading `clock(i)`. */
  function OutputFor(
    i: nat, name: string, position: nat, roll: string,
    clock: nat -> string, eventDate: string, digest: Digest, render: CertData -> string): Output
  {
    var hash := CertificateHash(digest, name, position, clock(i));
    var data := CertData(name, position, hash, EventName, eventDate, true);
    Output(i, HtmlPath(roll), FixImgPaths(render(data)))
  }

  /** The expected output for a valid entry, read directly off the entry. */
  function Expected(
    roster: seq<Entry>, i: nat,
    clock: nat -> string, eventDate: string, digest: Digest, render: CertData -> string): Output
    requires i < |roster| && Accepts(roster[i])
  {
    var e := roster[i];
    OutputFor(i, Strip(e.name.s), ParseNat(e.position.Text()), e.roll.Text(), clock, eventDate, digest, render)
  }

  /** The fate of every entry, in roster order. */
  function Steps(roster: seq<Entry>, writable: string -> bool): (steps: seq<Step>)
    ensures |steps| == |roster|
    ensures forall i :: 0 <= i < |roster| ==> steps[i] == Fate(roster[i], writable)
  {
    seq(|roster|, i requires 0 <= i < |roster| => Fate(roster[i], writable))
  }

  /** The certificate file an emitting step produces. */
  function Made(
    steps: seq<Step>, i: nat,
    clock: nat -> string, eventDate: string, digest: Digest, render: CertData -> string): Output
    requires i < |steps| && steps[i].Emit?
  {
    OutputFor(i, steps[i].name, steps[i].position, steps[i].roll, clock, eventDate, digest, render)
  }

  /** The batch run: the files written, in order, and how it ended. */
  datatype BatchRun = BatchRun(outputs: seq<Output>, status: Status)

  /**
   * The run reads the roster up to the first entry whose name is an
   * integer or whose output file cannot be opened, and stops there;
   * otherwise it reads every entry.
   */
  predicate Stops(roster: seq<Entry>, writable: string -> bool, r: BatchRun) {
    && !r.status.RosterMissing?
    && (r.status.CrashedAt? ==> r.status.index < |roster| && Fails(roster[r.status.index], writable))
    && (forall i :: 0 <= i < StopIndex(|roster|, r.status) ==> !Fails(roster[i], writable))
  }

  /**
   * Every entry read that passes the check gets exactly its expected
   * certificate file, files come in roster order, and no other entry gets one.
   */
  ghost predicate Emits(
    roster: seq<Entry>, r: BatchRun,
    clock: nat -> string, eventDate: string, digest: Digest, render: CertData -> string)
  {
    && (forall k :: 0 <= k < |r.outputs| ==>
          && r.outputs[k].source < StopIndex(|roster|, r.status) <= |roster|
          && Accepts(roster[r.outputs[k].source])
          && r.outputs[k] == Expected(roster, r.outputs[k].source, clock, eventDate, digest, render))
    && (forall k, l :: 0 <= k < l < |r.outputs| ==> r.outputs[k].source < r.outputs[l].source)
    && (forall i :: 0 <= i < StopIndex(|roster|, r.status) && Accepts(roster[i]) ==>
          exists k :: 0 <= k < |r.outputs| && r.outputs[k].source == i)
  }

  /** The files written for the emitting entries found by the walk, in walk order. */
  function Assemble(
    roster: seq<Entry>, writable: string -> bool,
    clock: nat -> string, eventDate: string, digest: Digest, render: CertData -> string): (r: BatchRun)
    ensures var w := WalkFrom(Steps(roster, writable), 0);
      && r.status == w.status
      && |r.outputs| == |w.emitted|
      && forall k :: 0 <= k < |r.outputs| ==> r.outputs[k] == Made(Steps(roster, writable), w.emitted[k], clock, eventDate, digest, render)
  {
    var steps := Steps(roster, writable);
    var w := WalkFrom(steps, 0);
    BatchRun(seq(|w.emitted|, k requires 0 <= k < |w.emitted| =>
      Made(steps, w.emitted[k], clock, eventDate, digest, render)), w.status)
  }

  lemma AssembleStops(
    roster: seq<Entry>, writable: string -> bool,
    clock: nat -> string, eventDate: string, digest: Digest, render: CertData -> string)
    ensures Stops(roster, writable, Assemble(roster, writable, clock, eventDate, digest, render))
  {
    var steps := Steps(roster, writable);
    var w := WalkFrom(steps, 0);
    var r := Assemble(roster, writable, clock, eventDate, digest, render);
    forall i | 0 <= i < StopIndex(|roster|, r.status) ensures !Fails(roster[i], writable) {
      assert !steps[i].Crash?;
    }
  }

  /** Every file the run writes is the expected one for an accepted entry read before the stop, in roster order. */
  lemma AssembleSound(
    roster: seq<Entry>, writable: string -> bool,
    clock: nat -> string, eventDate: string, digest: Digest, render: CertData -> string)
    ensures var r := Assemble(roster, writable, clock, eventDate, digest, render);
      && (forall k :: 0 <= k < |r.outputs| ==>
            && r.outputs[k].source < StopIndex(|roster|, r.status) <= |roster|
            && Accepts(roster[r.outputs[k].source])
            && r.outputs[k] == Expected(roster, r.outputs[k].source, clock, eventDate, digest, render))
      && (forall k, l :: 0 <= k < l < |r.outputs| ==> r.outputs[k].source < r.outputs[l].source)
  {
    var steps := Steps(roster, writable);
    var w := WalkFrom(steps, 0);
    var r := Assemble(roster, writable, clock, eventDate, digest, render);
    WalkSorted(steps, 0);
    forall k | 0 <= k < |r.outputs|
      ensures r.outputs[k].source == w.emitted[k]
      ensures r.outputs[k].source < StopIndex(|roster|, r.status) <= |roster|
      ensures Accepts(roster[r.outputs[k].source])
      ensures r.outputs[k] == Expected(roster, r.outputs[k].source, clock, eventDate, digest, render)
    {
      var i := w.emitted[k];
      assert steps[i].Emit? && steps[i] == Classify(roster[i]);
    }
  }

  /** Every accepted entry read before the stop gets a file. */
  lemma AssembleComplete(
    roster: seq<Entry>, writable: string -> bool,
    clock: nat -> string, eventDate: string, digest: Digest, render: CertData -> string)
    ensures var r := Assemble(roster, writable, clock, eventDate, digest, render);
      forall i :: 0 <= i < StopIndex(|roster|, r.status) && Accepts(roster[i]) ==>
        exists k :: 0 <= k < |r.outputs| && r.outputs[k].source == i
  {
    var steps := Steps(roster, writable);
    var w := WalkFrom(steps, 0);
    var r := Assemble(roster, writable, clock, eventDate, digest, render);
    WalkComplete(steps, 0);
    forall i | 0 <= i < StopIndex(|roster|, r.status) && Accepts(roster[i])
      ensures exists k :: 0 <= k < |r.outputs| && r.outputs[k].source == i
    {
      assert !steps[i].Crash?;
      assert steps[i].Emit?;
      assert i in w.emitted;
      var k :| 0 <= k < |w.emitted| && w.emitted[k] == i;
      assert r.outputs[k].source == i;
    }
  }

  lemma AssembleEmits(
    roster: seq<Entry>, writable: string -> bool,
    clock: nat -> string, eventDate: string, digest: Digest, render: CertData -> string)
    ensures Emits(roster, Assemble(roster, writable, clock, eventDate, digest, render), clock, eventDate, digest, render)
  {
    AssembleSound(roster, writable, clock, eventDate, digest, render);
    AssembleComplete(roster, writable, clock, eventDate, digest, render);
  }

  /**
   * `batch_generate_certificates()`: a missing roster aborts before anything
   * is written; `writable(path)` says whether `open(path, 'w')` succeeds.
   */
  function BatchGenerate(
    roster: Option<seq<Entry>>, writable: string -> bool,
    clock: nat -> string, eventDate: string, digest: Digest, render: CertData -> string): (r: BatchRun)
    ensures roster.None? ==> r == BatchRun([], RosterMissing)
    ensures roster.Some? ==>
      Stops(roster.value, writable, r) && Emits(roster.value, r, clock, eventDate, digest, render)
  {
    match roster
    case None => BatchRun([], RosterMissing)
    case Some(entries) =>
      AssembleStops(entries, writable, clock, eventDate, digest, render);
      AssembleEmits(entries, writable, clock, eventDate, digest, render);
      Assemble(entries, writable, clock, eventDate, digest, render)
  }

  /**
   * An accepted entry whose file cannot be opened (roll `a/b` under a
   * directory that was never created) ends the run there, after the files
   * of the entries before it and with none for it or any later entry.
   */
  lemma UnwritableEndsRun(
    roster: seq<Entry>, writable: string -> bool, i: nat,
    clock: nat -> string, eventDate: string, digest: Digest, render: CertData -> string)
    requires i < |roster| && Accepts(roster[i]) && !writable(HtmlPath(roster[i].roll.Text()))
    requires forall j :: 0 <= j < i ==> !Fails(roster[j], writable)
    ensures var r := BatchGenerate(Some(roster), writable, clock, eventDate, digest, render);
      && r.status == CrashedAt(i)
      && forall k :: 0 <= k < |r.outputs| ==> r.outputs[k].source < i
  {
    var r := BatchGenerate(Some(roster), writable, clock, eventDate, digest, render);
    assert Fails(roster[i], writable);
  }

  /**
   * Different printed rolls get different path strings; entries whose rolls
   * print the same (a repeated roll, or `"1"` and `1`) write to one path, the
   * later write replacing the earlier file. Different paths can still name
   * one file (`b` and `./b`).
   */
  lemma HtmlPathInjective(r1: string, r2: string)
    ensures HtmlPath(r1) == HtmlPath(r2) <==> r1 == r2
  {
    var p1, p2 := HtmlPath(r1), HtmlPath(r2);
    if p1 == p2 {
      var rel1, rel2 := r1 == [] || r1[0] != '/', r2 == [] || r2[0] != '/';
      if rel1 && rel2 {
        assert r1 == p1[12..|p1| - 5];
        assert r2 == p2[12..|p2| - 5];
      } else if !rel1 && !rel2 {
        assert r1 == p1[..|p1| - 5];
        assert r2 == p2[..|p2| - 5];
      }
    }
  }

  /**
   * The two paths disagree on a whitespace-only name: the form path checks
   * the name before stripping it and issues a certificate with an empty
   * display name, while the batch path strips first and skips the entry.
   */
  lemma BlankNameIssuedButNotBatched(
    roll: string, name: string, store: Store.StoreFile, timestamp: string, generatedAt: string, digest: Digest)
    requires !AllSpace(roll) && roll == Strip(roll)
    requires name != [] && AllSpace(name)
    ensures Classify(Entry(Str(roll), Str(name), Str("1"))) == Skip
    ensures
      var r := Issue.Generate(roll, Some([Entry(Str(roll), Str(name), Str("1"))]), store, timestamp, generatedAt, digest);
      r.outcome.Ok? && r.outcome.value.displayName == []
  {
    StripEmptyIffBlank(name);
    Issue.BlankNameIssuedEmpty(roll, name, store, timestamp, generatedAt, digest);
  }

  /** Reference count: the entries that pass the batch check. */
  function CountAccepted(roster: seq<Entry>): nat {
    if |roster| == 0 then 0
    else (if Accepts(roster[0]) then 1 else 0) + CountAccepted(roster[1..])
  }

  lemma {:induction false} CountEmitsAccepted(roster: seq<Entry>, writable: string -> bool, from: nat)
    requires from <= |roster|
    requires forall i :: from <= i < |roster| ==> !Fails(roster[i], writable)
    ensures CountEmits(Steps(roster, writable), from) == CountAccepted(roster[from..])
    decreases |roster| - from
  {
    if from < |roster| {
      CountEmitsAccepted(roster, writable, from + 1);
      assert roster[from..][1..] == roster[from + 1..];
    }
  }

  /**
   * When no entry fails (no integer name, every output file can be opened)
   * the run reads the whole roster, and it makes exactly one write per entry
   * that passes the check: invalid entries are skipped without stopping
   * anything.
   */
  lemma BatchCompletesWithOnePerValid(
    roster: seq<Entry>, writable: string -> bool,
    clock: nat -> string, eventDate: string, digest: Digest, render: CertData -> string)
    requires forall i :: 0 <= i < |roster| ==> !Fails(roster[i], writable)
    ensures var r := BatchGenerate(Some(roster), writable, clock, eventDate, digest, render);
      r.status == Completed && |r.outputs| == CountAccepted(roster)
  {
    var steps := Steps(roster, writable);
    WalkCount(steps, 0);
    CountEmitsAccepted(roster, writable, 0);
    assert roster[0..] == roster;
  }
}
