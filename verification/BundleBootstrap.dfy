/** Extraction of the frozen source archive (`safe_relative` and the member part of `prepare`).
    Hashing is any function; the archive is a sequence of records; the disk holds one output
    directory, the run's temporary directory, directories that earlier clean-ups left behind, and
    one receipt file. Every step of the operating system may fail; the rename is one step. */
module BundleBootstrap {
  import opened Options
  import opened Texts

  type Bytes = seq<bv8>

  const SPECIAL := "G00F-BUNDLE-MANIFEST.json"
  const MODE_0644 := 420
  const MODE_0755 := 493

  /** A row of the payload manifest. */
  datatype Member = Member(path: string, isFile: bool, mode: int, size: int, sha256: string)

  datatype Manifest = Manifest(members: seq<Member>, content: Bytes, epoch: int)

  datatype Kind = Regular | SymLink | HardLink | Other

  /** A record of the archive. */
  datatype Info = Info(name: string, kind: Kind, payload: Option<Bytes>, size: int, mode: nat,
                       uid: int, gid: int, uname: string, gname: string, mtime: int)

  datatype File = File(content: Bytes, mode: int)

  type Tree = map<string, File>

  /** An authenticated controller: where the frozen tree keeps it, and its hash. */
  datatype Controller = Controller(frozenPath: string, sha256: string)

  datatype Receipt = Receipt(memberCount: nat, controllers: seq<Controller>)

  /** What is at the receipt's path: a file whose text is unfinished, or the whole receipt. */
  datatype ReceiptFile = Partial | Whole(receipt: Receipt)

  /** The steps at which the operating system can fail. A failed write has created its file. */
  datatype Step =
    | MakeTemporary | OpenMember(i: nat) | WriteMember(i: nat) | Rename | Cleanup
    | OpenReceipt | WriteReceipt | SyncReceipt

  /** Everything `prepare` has authenticated before it looks at members, with the hash function, the
      steps that fail, how many bytes a failing member write leaves, and which files a failing
      clean-up leaves. */
  datatype Job = Job(manifest: Manifest, controllers: seq<Controller>, infos: seq<Info>, hash: Bytes -> string,
                     faults: Step -> bool, cut: nat, survivors: set<string>)

  /** `safe_relative`. */
  predicate SafeRelative(raw: string) {
    NormalRelative(raw)
  }

  // ---------------------------------------------------------------- matching members

  predicate ValidMember(member: Member) {
    SafeRelative(member.path) && member.isFile && member.mode in {MODE_0644, MODE_0755}
  }

  ghost predicate ValidMembers(members: seq<Member>) {
    && (forall i | 0 <= i < |members| :: ValidMember(members[i]))
    && (forall i, j | 0 <= i < j < |members| :: members[i].path != members[j].path)
  }

  /** The manifest rows by path. */
  function Expected(members: seq<Member>): map<string, Member> {
    if members == [] then map[]
    else Expected(members[..|members| - 1])[members[|members| - 1].path := members[|members| - 1]]
  }

  lemma {:induction false} ExpectedHolds(members: seq<Member>)
    ensures forall i | 0 <= i < |members| :: members[i].path in Expected(members)
    ensures forall p | p in Expected(members) :: Expected(members)[p].path == p && Expected(members)[p] in members
  {
    if members != [] {
      var init, last := members[..|members| - 1], members[|members| - 1];
      ExpectedHolds(init);
      assert members == init + [last];
      forall i | 0 <= i < |members| ensures members[i].path in Expected(members) {
        assert members[i] == if i < |init| then init[i] else last;
      }
    }
  }

  lemma {:induction false} ValidAppend(before: seq<Member>, row: Member)
    ensures ValidMembers(before + [row]) <==>
      ValidMembers(before) && ValidMember(row) && forall j | 0 <= j < |before| :: before[j].path != row.path
  {
    hide ValidMember;
    var after := before + [row];
    if ValidMembers(after) {
      assert ValidMember(after[|before|]);
      forall j | 0 <= j < |before| ensures ValidMember(before[j]) && before[j].path != row.path {
        assert after[j] == before[j];
      }
      forall j, k | 0 <= j < k < |before| ensures before[j].path != before[k].path {
        assert after[j] == before[j] && after[k] == before[k];
      }
    }
  }

  /** The mapped paths are the paths of the rows. */
  lemma {:induction false} ExpectedPaths(members: seq<Member>, path: string)
    ensures path in Expected(members) <==> exists j :: 0 <= j < |members| && members[j].path == path
  {
    hide Expected;
    ExpectedHolds(members);
  }

  /** One row: the rows so far and it are valid together exactly when it is valid and new. */
  lemma {:induction false} MemberStep(members: seq<Member>, i: nat)
    requires i < |members| && ValidMembers(members[..i])
    ensures ValidMember(members[i]) && members[i].path !in Expected(members[..i]) <==> ValidMembers(members[..i + 1])
    ensures Expected(members[..i + 1]) == Expected(members[..i])[members[i].path := members[i]]
  {
    var before, row := members[..i], members[i];
    assert members[..i + 1] == before + [row];
    assert (before + [row])[..i] == before;
    hide ValidMember, ValidMembers;
    ExpectedPaths(before, row.path);
    ValidAppend(before, row);
  }

  lemma {:induction false} ValidPrefix(members: seq<Member>, i: nat)
    requires i <= |members| && ValidMembers(members)
    ensures ValidMembers(members[..i])
  {
    hide ValidMember;
  }

  /** The loop that fills `expected`. */
  method MatchMembers(members: seq<Member>) returns (result: Result<map<string, Member>>)
    ensures result.Ok? <==> ValidMembers(members)
    ensures result.Ok? ==> result.value == Expected(members)
  {
    hide SafeRelative, ValidMembers, Expected;
    var expected: map<string, Member> := map[];
    NoMembers();
    for i := 0 to |members|
      invariant expected == Expected(members[..i]) && ValidMembers(members[..i])
    {
      var raw := members[i];
      MemberStep(members, i);
      if ValidMembers(members) {
        ValidPrefix(members, i + 1);
      }
      if !SafeRelative(raw.path) {
        return Err("unsafe archive member path");
      }
      if raw.path in expected {
        return Err("source payload manifest duplicates a member");
      }
      if !raw.isFile || raw.mode !in {MODE_0644, MODE_0755} {
        return Err("source payload manifest has an invalid type/mode");
      }
      expected := expected[raw.path := raw];
    }
    assert members[..|members|] == members;
    result := Ok(expected);
  }

  lemma {:induction false} NoMembers()
    ensures ValidMembers([]) && Expected([]) == map[]
  {
  }

  predicate Bound(controller: Controller, expected: map<string, Member>) {
    controller.frozenPath in expected && expected[controller.frozenPath].sha256 == controller.sha256
  }

  function Names(infos: seq<Info>): set<string> {
    set i | 0 <= i < |infos| :: infos[i].name
  }

  ghost predicate MatchingNames(infos: seq<Info>, expected: map<string, Member>) {
    && (forall i | 0 <= i < |infos| :: SafeRelative(infos[i].name))
    && (forall i, j | 0 <= i < j < |infos| :: infos[i].name != infos[j].name)
    && Names(infos) == expected.Keys + {SPECIAL}
  }

  predicate ValidInfo(job: Job, expected: map<string, Member>, info: Info)
    requires info.name == SPECIAL || info.name in expected
  {
    && info.kind == Regular && info.payload.Some?
    && info.uid == 0 && info.gid == 0 && info.uname == "" && info.gname == "" && info.mtime == job.manifest.epoch
    && if info.name == SPECIAL then
         info.payload.value == job.manifest.content && info.mode % 512 == MODE_0644
       else
         var row := expected[info.name];
         && info.size == row.size == |info.payload.value|
         && job.hash(info.payload.value) == row.sha256
         && info.mode % 512 == row.mode
  }

  // ---------------------------------------------------------------- writing members

  /** `p` is a directory above `q`. */
  predicate Above(p: string, q: string) {
    p + "/" <= q
  }

  /** Two files cannot both be created. */
  predicate Collide(p: string, q: string) {
    p == q || Above(p, q) || Above(q, p)
  }

  /** Exclusive creation works: the target is not the root, is neither a file nor a directory, and
      no parent is a file. */
  predicate CanCreate(tree: Tree, name: string) {
    name != "." && forall p | p in tree :: !Collide(p, name)
  }

  function FileOf(job: Job, expected: map<string, Member>, info: Info): File
    requires info.name == SPECIAL || info.name in expected
    requires ValidInfo(job, expected, info)
  {
    File(info.payload.value, if info.name == SPECIAL then MODE_0644 else expected[info.name].mode)
  }

  ghost predicate Covered(infos: seq<Info>, expected: map<string, Member>) {
    forall i | 0 <= i < |infos| :: infos[i].name == SPECIAL || infos[i].name in expected
  }

  predicate MemberFails(job: Job, i: nat) {
    job.faults(OpenMember(i)) || job.faults(WriteMember(i))
  }

  /** The first `k` records extract: each is valid, no step fails, and no two names collide. */
  ghost predicate Extracts(job: Job, expected: map<string, Member>, k: nat)
    requires k <= |job.infos| && Covered(job.infos, expected)
  {
    && (forall i | 0 <= i < k ::
         ValidInfo(job, expected, job.infos[i]) && !MemberFails(job, i) && job.infos[i].name != ".")
    && (forall i, j | 0 <= i < j < k :: !Collide(job.infos[i].name, job.infos[j].name))
  }

  /** The tree of the first `k` records. */
  ghost predicate Holds(job: Job, expected: map<string, Member>, k: nat, tree: Tree)
    requires k <= |job.infos| && Covered(job.infos, expected) && Extracts(job, expected, k)
  {
    && tree.Keys == Names(job.infos[..k])
    && forall i | 0 <= i < k ::
         job.infos[i].name in tree && tree[job.infos[i].name] == FileOf(job, expected, job.infos[i])
  }

  /** Every file holds the first bytes of its own record's payload. */
  ghost predicate FromArchive(job: Job, tree: Tree) {
    forall p | p in tree :: exists i :: 0 <= i < |job.infos| && StartOf(job.infos[i], p, tree[p].content)
  }

  predicate StartOf(info: Info, name: string, content: Bytes) {
    info.name == name && info.payload.Some? && content <= info.payload.value
  }

  /** What a failed clean-up leaves of the temporary directory. */
  function Remains(job: Job, tree: Tree): Tree {
    map p | p in tree && p in job.survivors :: tree[p]
  }

  class Disk {
    var output: Option<Tree>
    var temporary: Option<Tree>
    var abandoned: seq<Tree>
    var receipt: Option<ReceiptFile>

    /** `shutil.rmtree` with ignored errors: the run's directory is gone, or silently left behind. */
    method Discard(job: Job)
      requires temporary.Some?
      modifies this`temporary, this`abandoned
      ensures temporary == None
      ensures abandoned ==
        old(abandoned) + if job.faults(Cleanup) then [Remains(job, old(temporary).value)] else []
    {
      if job.faults(Cleanup) {
        abandoned := abandoned + [Remains(job, temporary.value)];
      } else {
        assert abandoned + [] == abandoned;
      }
      temporary := None;
    }

    /** The guarded block: members go to a fresh temporary directory, which is renamed at the end;
        any failure discards it. The output appears complete or not at all. What a failing clean-up
        leaves behind is one directory that holds nothing but starts of the archive's payloads. */
    method Extract(job: Job, expected: map<string, Member>) returns (done: bool)
      requires output == None && temporary == None && Covered(job.infos, expected)
      modifies this`output, this`temporary, this`abandoned
      ensures temporary == None
      ensures done <==>
        !job.faults(MakeTemporary) && Extracts(job, expected, |job.infos|) && !job.faults(Rename)
      ensures done ==> output.Some? && Holds(job, expected, |job.infos|, output.value)
      ensures !done ==> output == None
      ensures done || job.faults(MakeTemporary) || !job.faults(Cleanup) <==> abandoned == old(abandoned)
      ensures abandoned != old(abandoned) ==>
        exists tree :: abandoned == old(abandoned) + [tree] && FromArchive(job, tree)
    {
      hide ValidInfo, FileOf, Collide, MemberFails, FromArchive;
      if job.faults(MakeTemporary) {
        return false;
      }
      temporary := Some(map[]);
      for i := 0 to |job.infos|
        invariant output == None && temporary.Some? && abandoned == old(abandoned)
        invariant Extracts(job, expected, i) && Holds(job, expected, i, temporary.value)
      {
        var info := job.infos[i];
        ExtractStep(job, expected, i, temporary.value);
        HeldIsFromArchive(job, expected, i, temporary.value);
        if !ValidInfo(job, expected, info) || job.faults(OpenMember(i)) || !CanCreate(temporary.value, info.name) {
          assert MemberFails(job, i) || !ValidInfo(job, expected, info) || !CanCreate(temporary.value, info.name) by {
            OpenFails(job, i);
          }
          Discard(job);
          return false;
        }
        var file := FileOf(job, expected, info);
        if job.faults(WriteMember(i)) {
          OpenFails(job, i);
          CutIsFromArchive(job, expected, i, temporary.value);
          temporary := Some(temporary.value[info.name := Cut(job, file)]);
          Discard(job);
          return false;
        }
        OpenFails(job, i);
        temporary := Some(temporary.value[info.name := file]);
      }
      if job.faults(Rename) {
        HeldIsFromArchive(job, expected, |job.infos|, temporary.value);
        Discard(job);
        return false;
      }
      output, temporary := temporary, None;
      done := true;
    }

    /** What a run of `prepare` can see and leave. */
    ghost function Installed(): Installation
      reads this
    {
      Installation(output, receipt)
    }

    /** The member part of `prepare`. A failure before the rename leaves the output as it was; the
        output that appears is complete; and a receipt file is created only after it. */
    method Prepare(job: Job) returns (result: Result<Receipt>)
      requires temporary == None
      modifies this
      ensures temporary == None
      ensures Ran(old(Installed()), job, result.Ok?, Installed())
      ensures result.Ok? ==> receipt == Some(Whole(result.value))
      ensures abandoned != old(abandoned) ==>
        && output == old(output) && receipt == old(receipt) && job.faults(Cleanup)
        && exists tree :: abandoned == old(abandoned) + [tree] && FromArchive(job, tree)
    {
      hide ValidMembers, MatchingNames, ValidInfo, Bound, Covered, Expected, Extracts, Holds, Complete, FromArchive;
      var checked := CheckJob(job);
      if checked.Err? {
        return Err(checked.error);
      }
      var expected := checked.value;
      if output.Some? {
        return Err("refusing to reuse an extracted source directory");
      }
      NamesAreCovered(job.infos, expected);
      var done := Extract(job, expected);
      if !done {
        return Err("extraction failed");
      }
      ExtractedIsComplete(job, output.value);
      var written := Receipt(|expected|, job.controllers);
      var recorded := Record(job, written);
      if !recorded {
        return Err("refusing to overwrite source bundle receipt, or writing it failed");
      }
      result := Ok(written);
    }

    /** The receipt is created exclusively, then written, then synchronised, without clean-up. */
    method Record(job: Job, written: Receipt) returns (recorded: bool)
      modifies this`receipt
      ensures receipt ==
        if old(receipt).Some? || job.faults(OpenReceipt) then old(receipt)
        else Some(if job.faults(WriteReceipt) then Partial else Whole(written))
      ensures recorded <==>
        old(receipt).None? && !job.faults(OpenReceipt) && !job.faults(WriteReceipt) && !job.faults(SyncReceipt)
    {
      if receipt.Some? || job.faults(OpenReceipt) {
        return false;
      }
      receipt := Some(Partial);
      if job.faults(WriteReceipt) {
        return false;
      }
      receipt := Some(Whole(written));
      recorded := !job.faults(SyncReceipt);
    }
  }

  /** The checks of members, controllers and names, before the disk is touched. */
  method CheckJob(job: Job) returns (result: Result<map<string, Member>>)
    ensures result.Ok? <==>
      && ValidMembers(job.manifest.members)
      && (forall i | 0 <= i < |job.controllers| :: Bound(job.controllers[i], Expected(job.manifest.members)))
      && MatchingNames(job.infos, Expected(job.manifest.members))
    ensures result.Ok? ==> result.value == Expected(job.manifest.members)
  {
    hide ValidMembers, MatchingNames, Bound, Expected;
    var matched := MatchMembers(job.manifest.members);
    if matched.Err? {
      return Err(matched.error);
    }
    var expected := matched.value;
    for i := 0 to |job.controllers|
      invariant forall j | 0 <= j < i :: Bound(job.controllers[j], expected)
    {
      if !Bound(job.controllers[i], expected) {
        return Err("authenticated outer controller does not equal the extracted controller member");
      }
    }
    var named := CheckNames(job.infos, expected);
    if !named {
      return Err("source archive member set differs from the exact manifest");
    }
    result := Ok(expected);
  }

  /** The part of the disk that outlives a run. */
  datatype Installation = Installation(output: Option<Tree>, receipt: Option<ReceiptFile>) {
    predicate Empty() {
      output.None? && receipt.None?
    }
  }

  function ReceiptOf(job: Job): Receipt {
    Receipt(|Expected(job.manifest.members)|, job.controllers)
  }

  /** One run: the output appears exactly when the job is accepted and there was none, and is then
      complete; a receipt file appears exactly when, besides, there was none and it can be created,
      and stays unfinished when its writing fails; and the run succeeds exactly when the receipt is
      written and synchronised. */
  ghost predicate Ran(before: Installation, job: Job, ok: bool, after: Installation) {
    && (after.output != before.output <==> before.output == None && Accepts(job))
    && (after.output != before.output ==> after.output.Some? && Complete(job, after.output.value))
    && (after.receipt != before.receipt <==>
         before.Empty() && Accepts(job) && !job.faults(OpenReceipt))
    && (after.receipt != before.receipt ==>
         after.receipt == Some(if job.faults(WriteReceipt) then Partial else Whole(ReceiptOf(job))))
    && (ok <==> after.receipt != before.receipt && !job.faults(WriteReceipt) && !job.faults(SyncReceipt))
  }

  // ---------------------------------------------------------------- any number of runs

  /** A history of runs on one installation, from a disk without output and receipt. */
  ghost predicate History(states: seq<Installation>, jobs: seq<Job>, oks: seq<bool>)
    requires |states| == |jobs| + 1 && |oks| == |jobs|
  {
    && states[0].Empty()
    && forall i | 0 <= i < |jobs| :: Ran(states[i], jobs[i], oks[i], states[i + 1])
  }

  /** Run `i` made the installation `state`: its output is complete for that run's job, and the
      receipt is missing, unfinished or that job's. */
  ghost predicate MadeBy(job: Job, state: Installation) {
    && Accepts(job) && state.output.Some? && Complete(job, state.output.value)
    && (state.receipt.Some? ==>
         state.receipt.value == if job.faults(WriteReceipt) then Partial else Whole(ReceiptOf(job)))
  }

  lemma {:induction false} RunOf(states: seq<Installation>, jobs: seq<Job>, oks: seq<bool>, i: nat)
    requires |states| == |jobs| + 1 && |oks| == |jobs| && History(states, jobs, oks) && i < |jobs|
    ensures Ran(states[i], jobs[i], oks[i], states[i + 1])
  {
    hide Ran;
  }

  lemma {:induction false} FirstOutput(before: Installation, job: Job, ok: bool, after: Installation)
    requires Ran(before, job, ok, after) && before.Empty()
    ensures after.Empty() || MadeBy(job, after)
  {
    hide Accepts, Complete, ReceiptOf;
  }

  lemma {:induction false} RunAfterOutput(before: Installation, job: Job, ok: bool, after: Installation)
    requires Ran(before, job, ok, after) && before.output.Some?
    ensures after == before && !ok
  {
    hide Accepts, Complete, ReceiptOf;
  }

  /** After any number of runs, an output or a receipt of either kind is the work of one run, whose
      job was accepted and whose tree is complete. */
  lemma {:induction false} InstallationIsMadeOnce(states: seq<Installation>, jobs: seq<Job>, oks: seq<bool>, k: nat)
    requires |states| == |jobs| + 1 && |oks| == |jobs| && History(states, jobs, oks) && k <= |jobs|
    ensures states[k].Empty() || exists i :: 0 <= i < k && MadeBy(jobs[i], states[k])
  {
    hide Ran, MadeBy, Installation.Empty;
    if k > 0 {
      InstallationIsMadeOnce(states, jobs, oks, k - 1);
      RunOf(states, jobs, oks, k - 1);
      hide History;
      if states[k - 1].Empty() {
        FirstOutput(states[k - 1], jobs[k - 1], oks[k - 1], states[k]);
      } else {
        var i :| 0 <= i < k - 1 && MadeBy(jobs[i], states[k - 1]);
        MadeHasOutput(jobs[i], states[k - 1]);
        RunAfterOutput(states[k - 1], jobs[k - 1], oks[k - 1], states[k]);
      }
    }
  }

  lemma {:induction false} MadeHasOutput(job: Job, state: Installation)
    requires MadeBy(job, state)
    ensures state.output.Some?
  {
    hide Accepts, Complete;
  }

  /** Once a run has left an output, every later run fails and changes neither output nor receipt. So
      an unfinished receipt stays unfinished. */
  lemma {:induction false} OutputIsFinal(states: seq<Installation>, jobs: seq<Job>, oks: seq<bool>, j: nat, k: nat)
    requires |states| == |jobs| + 1 && |oks| == |jobs| && History(states, jobs, oks)
    requires j <= k <= |jobs| && states[j].output.Some?
    ensures states[k] == states[j]
    ensures forall i | j <= i < k :: !oks[i]
  {
    hide History, Ran;
    if j < k {
      OutputIsFinal(states, jobs, oks, j, k - 1);
      RunOf(states, jobs, oks, k - 1);
      RunAfterOutput(states[k - 1], jobs[k - 1], oks[k - 1], states[k]);
    }
  }

  /** At most one run of a history succeeds, and what it wrote is what stays. */
  lemma {:induction false} OneRunSucceeds(states: seq<Installation>, jobs: seq<Job>, oks: seq<bool>, i: nat)
    requires |states| == |jobs| + 1 && |oks| == |jobs| && History(states, jobs, oks)
    requires i < |jobs| && oks[i]
    ensures states[|jobs|].receipt == Some(Whole(ReceiptOf(jobs[i]))) && MadeBy(jobs[i], states[|jobs|])
    ensures forall k | 0 <= k < |jobs| && oks[k] :: k == i
  {
    hide History, MadeBy, ReceiptOf;
    SuccessIsFinal(states, jobs, oks, i);
    forall k | 0 <= k < |jobs| && oks[k] ensures k == i {
      SuccessIsFinal(states, jobs, oks, k);
    }
  }

  lemma {:induction false} SuccessIsFinal(states: seq<Installation>, jobs: seq<Job>, oks: seq<bool>, i: nat)
    requires |states| == |jobs| + 1 && |oks| == |jobs| && History(states, jobs, oks)
    requires i < |jobs| && oks[i]
    ensures states[|jobs|].receipt == Some(Whole(ReceiptOf(jobs[i]))) && MadeBy(jobs[i], states[|jobs|])
    ensures forall k | i < k < |jobs| :: !oks[k]
  {
    hide History, Ran, MadeBy, ReceiptOf;
    RunOf(states, jobs, oks, i);
    FirstSuccess(states[i], jobs[i], states[i + 1]);
    OutputIsFinal(states, jobs, oks, i + 1, |jobs|);
  }

  lemma {:induction false} FirstSuccess(before: Installation, job: Job, after: Installation)
    requires Ran(before, job, true, after)
    ensures MadeBy(job, after) && after.output.Some? && after.receipt == Some(Whole(ReceiptOf(job)))
  {
    hide Accepts, Complete, ReceiptOf;
  }

  /** The checks of the archive's names. */
  method CheckNames(infos: seq<Info>, expected: map<string, Member>) returns (ok: bool)
    ensures ok <==> MatchingNames(infos, expected)
  {
    hide SafeRelative;
    var names: set<string> := {};
    for i := 0 to |infos|
      invariant names == Names(infos[..i])
      invariant forall j | 0 <= j < i :: SafeRelative(infos[j].name)
      invariant forall j, k | 0 <= j < k < i :: infos[j].name != infos[k].name
    {
      if !SafeRelative(infos[i].name) {
        return false;
      }
      if infos[i].name in names {
        var j :| 0 <= j < i && infos[..i][j].name == infos[i].name;
        assert infos[j].name == infos[i].name;
        return false;
      }
      NamesStep(infos, i);
      forall j | 0 <= j < i ensures infos[j].name != infos[i].name {
        assert infos[..i][j].name in Names(infos[..i]);
      }
      names := names + {infos[i].name};
    }
    assert infos[..|infos|] == infos;
    ok := names == expected.Keys + {SPECIAL};
  }

  lemma {:induction false} NamesStep(infos: seq<Info>, k: nat)
    requires k < |infos|
    ensures Names(infos[..k + 1]) == Names(infos[..k]) + {infos[k].name}
  {
  }

  lemma {:induction false} NamesAreCovered(infos: seq<Info>, expected: map<string, Member>)
    requires MatchingNames(infos, expected)
    ensures Covered(infos, expected)
  {
    forall i | 0 <= i < |infos| ensures infos[i].name == SPECIAL || infos[i].name in expected {
      assert infos[i].name in Names(infos);
    }
  }

  /** One record: it can be written exactly when the records so far and it extract together. */
  lemma {:induction false} ExtractStep(job: Job, expected: map<string, Member>, k: nat, tree: Tree)
    requires k < |job.infos| && Covered(job.infos, expected)
    requires Extracts(job, expected, k) && Holds(job, expected, k, tree)
    ensures var info := job.infos[k];
      if ValidInfo(job, expected, info) && !MemberFails(job, k) && CanCreate(tree, info.name)
      then Extracts(job, expected, k + 1)
        && Holds(job, expected, k + 1, tree[info.name := FileOf(job, expected, info)])
      else forall n | k < n <= |job.infos| :: !Extracts(job, expected, n)
  {
    hide ValidInfo, FileOf, Collide, MemberFails;
    var info := job.infos[k];
    NamesStep(job.infos, k);
    CollisionIn(job, expected, k, tree);
  }

  lemma {:induction false} OpenFails(job: Job, i: nat)
    ensures job.faults(OpenMember(i)) || job.faults(WriteMember(i)) <==> MemberFails(job, i)
  {
  }

  function Cut(job: Job, file: File): File {
    File(file.content[..if job.cut < |file.content| then job.cut else |file.content|], file.mode)
  }

  lemma {:induction false} HeldIsFromArchive(job: Job, expected: map<string, Member>, k: nat, tree: Tree)
    requires k <= |job.infos| && Covered(job.infos, expected)
    requires Extracts(job, expected, k) && Holds(job, expected, k, tree)
    ensures FromArchive(job, Remains(job, tree))
  {
    hide Collide, MemberFails;
    forall p | p in Remains(job, tree)
      ensures exists i :: 0 <= i < |job.infos| && StartOf(job.infos[i], p, tree[p].content)
    {
      var i :| 0 <= i < |job.infos[..k]| && job.infos[..k][i].name == p;
      assert StartOf(job.infos[i], p, tree[p].content);
    }
  }

  lemma {:induction false} CutIsFromArchive(job: Job, expected: map<string, Member>, k: nat, tree: Tree)
    requires k < |job.infos| && Covered(job.infos, expected) && ValidInfo(job, expected, job.infos[k])
    requires FromArchive(job, Remains(job, tree))
    ensures FromArchive(job, Remains(job, tree[job.infos[k].name := Cut(job, FileOf(job, expected, job.infos[k]))]))
  {
    var info := job.infos[k];
    var file := Cut(job, FileOf(job, expected, info));
    assert StartOf(info, info.name, file.content);
    var remains := Remains(job, tree[info.name := file]);
    forall p | p in remains
      ensures exists i :: 0 <= i < |job.infos| && StartOf(job.infos[i], p, remains[p].content)
    {
      if p != info.name {
        assert remains[p] == Remains(job, tree)[p];
      }
    }
  }

  lemma {:induction false} CollisionIn(job: Job, expected: map<string, Member>, k: nat, tree: Tree)
    requires k < |job.infos| && Covered(job.infos, expected)
    requires Extracts(job, expected, k) && Holds(job, expected, k, tree)
    ensures CanCreate(tree, job.infos[k].name) <==>
      job.infos[k].name != "." && forall i | 0 <= i < k :: !Collide(job.infos[i].name, job.infos[k].name)
    ensures CanCreate(tree, job.infos[k].name) ==> job.infos[k].name !in tree
  {
  }

  // ---------------------------------------------------------------- what the output is

  /** Every check after the members, and every step up to the rename, succeeds. */
  ghost predicate ChecksPass(job: Job, expected: map<string, Member>) {
    && (forall i | 0 <= i < |job.controllers| :: Bound(job.controllers[i], expected))
    && MatchingNames(job.infos, expected)
    && Covered(job.infos, expected) && Extracts(job, expected, |job.infos|)
    && !job.faults(MakeTemporary) && !job.faults(Rename)
  }

  /** When `prepare` reaches the rename and renames. */
  ghost predicate Accepts(job: Job) {
    ValidMembers(job.manifest.members) && ChecksPass(job, Expected(job.manifest.members))
  }

  /** The file is what the manifest row says. */
  predicate Matches(job: Job, row: Member, file: File) {
    |file.content| == row.size && job.hash(file.content) == row.sha256 && file.mode == row.mode
  }

  /** The whole tree: exactly the listed paths and the payload manifest, each as listed, and every
      controller at its frozen path. */
  ghost predicate Complete(job: Job, tree: Tree) {
    var expected := Expected(job.manifest.members);
    && tree.Keys == expected.Keys + {SPECIAL}
    && tree[SPECIAL] == File(job.manifest.content, MODE_0644)
    && (forall p | p in expected && p != SPECIAL :: Matches(job, expected[p], tree[p]))
    && (forall i | 0 <= i < |job.controllers| && job.controllers[i].frozenPath != SPECIAL ::
         && job.controllers[i].frozenPath in tree
         && job.hash(tree[job.controllers[i].frozenPath].content) == job.controllers[i].sha256)
  }

  lemma {:induction false} ExtractedIsComplete(job: Job, tree: Tree)
    requires Accepts(job) && Holds(job, Expected(job.manifest.members), |job.infos|, tree)
    ensures Complete(job, tree)
  {
    hide SafeRelative, Collide, Expected;
    var expected := Expected(job.manifest.members);
    assert job.infos[..|job.infos|] == job.infos;
    forall p | p in tree
      ensures if p == SPECIAL then tree[p] == File(job.manifest.content, MODE_0644)
              else p in expected && Matches(job, expected[p], tree[p])
    {
      var i :| 0 <= i < |job.infos| && job.infos[i].name == p;
      assert ValidInfo(job, expected, job.infos[i]);
    }
    forall i | 0 <= i < |job.controllers| && job.controllers[i].frozenPath != SPECIAL
      ensures job.controllers[i].frozenPath in tree
      ensures job.hash(tree[job.controllers[i].frozenPath].content) == job.controllers[i].sha256
    {
      assert Bound(job.controllers[i], expected);
    }
  }

  /** The special name skips its row's checks: a complete tree agrees with every row of the manifest
      exactly when the manifest does not list its own file, or lists it truthfully. */
  lemma {:induction false} EveryRowMatches(job: Job, tree: Tree)
    requires Complete(job, tree)
    ensures var expected := Expected(job.manifest.members);
      (forall p | p in expected :: Matches(job, expected[p], tree[p])) <==>
        (SPECIAL in expected ==> Matches(job, expected[SPECIAL], File(job.manifest.content, MODE_0644)))
  {
  }

  // ---------------------------------------------------------------- which archives extract

  /** The archive's record of a member. */
  function RecordOf(name: string, payload: Bytes, mode: nat, epoch: int): Info {
    Info(name, Regular, Some(payload), |payload|, mode, 0, 0, "", "", epoch)
  }

  /** The record of a listed file, with the listed size, hash and permission bits. */
  ghost predicate ListedRecord(job: Job, info: Info) {
    exists payload: Bytes, k ::
      && 0 <= k < |job.manifest.members|
      && info == RecordOf(info.name, payload, info.mode, job.manifest.epoch)
      && job.manifest.members[k].path == info.name && job.manifest.members[k].size == |payload|
      && job.manifest.members[k].sha256 == job.hash(payload) && job.manifest.members[k].mode == info.mode % 512
  }

  /** The record of the payload manifest itself; its stated size is not compared. */
  ghost predicate ManifestRecord(job: Job, info: Info) {
    info == RecordOf(SPECIAL, job.manifest.content, info.mode, job.manifest.epoch).(size := info.size)
    && info.mode % 512 == 420
  }

  /** Both files can be created: neither is a directory of the other. */
  predicate Apart(p: string, q: string) {
    p != q && !(p + "/" <= q) && !(q + "/" <= p)
  }

  /** The archive records every listed file truthfully and the manifest, once each, under names that are
      safe and apart. */
  ghost predicate TruthfulArchive(job: Job) {
    && Names(job.infos) == Listed(job.manifest.members) + {SPECIAL}
    && (forall i | 0 <= i < |job.infos| :: SafeRelative(job.infos[i].name) && job.infos[i].name != ".")
    && (forall i, j | 0 <= i < j < |job.infos| :: Apart(job.infos[i].name, job.infos[j].name))
    && (forall i | 0 <= i < |job.infos| :: TruthfulRecord(job, job.infos[i]))
  }

  ghost predicate TruthfulRecord(job: Job, info: Info) {
    if info.name == SPECIAL then ManifestRecord(job, info) else ListedRecord(job, info)
  }

  /** The exact condition: a job is accepted when its manifest is valid, its controllers are bound, its
      archive is truthful and no step fails; and no other job is. */
  lemma {:induction false} AcceptsExactly(job: Job)
    ensures Accepts(job) <==>
      && ValidMembers(job.manifest.members)
      && (forall i | 0 <= i < |job.controllers| :: Bound(job.controllers[i], Expected(job.manifest.members)))
      && TruthfulArchive(job)
      && !job.faults(MakeTemporary) && !job.faults(Rename)
      && (forall i | 0 <= i < |job.infos| :: !job.faults(OpenMember(i)) && !job.faults(WriteMember(i)))
  {
    hide SafeRelative, ValidMembers, Expected, Bound, MatchingNames, Extracts, TruthfulArchive;
    if ValidMembers(job.manifest.members) {
      ArchiveIsTruthful(job, Expected(job.manifest.members));
    }
  }

  lemma {:induction false} ArchiveIsTruthful(job: Job, expected: map<string, Member>)
    requires ValidMembers(job.manifest.members) && expected == Expected(job.manifest.members)
    ensures MatchingNames(job.infos, expected) && Covered(job.infos, expected) && Extracts(job, expected, |job.infos|)
      <==> (TruthfulArchive(job)
        && forall i | 0 <= i < |job.infos| :: !job.faults(OpenMember(i)) && !job.faults(WriteMember(i)))
  {
    hide SafeRelative, ValidMembers, Expected, ValidInfo, TruthfulRecord, MemberFails, Collide, Apart;
    ListedKeys(job.manifest.members);
    if Names(job.infos) == expected.Keys + {SPECIAL} {
      forall i | 0 <= i < |job.infos| ensures job.infos[i].name == SPECIAL || job.infos[i].name in expected {
        assert job.infos[i].name in Names(job.infos);
      }
      forall i | 0 <= i < |job.infos|
        ensures ValidInfo(job, expected, job.infos[i]) <==> TruthfulRecord(job, job.infos[i])
        ensures MemberFails(job, i) <==> job.faults(OpenMember(i)) || job.faults(WriteMember(i))
      {
        InfoIsRecord(job, job.infos[i]);
        OpenFails(job, i);
      }
      forall i, j | 0 <= i < j < |job.infos|
        ensures Apart(job.infos[i].name, job.infos[j].name) <==> !Collide(job.infos[i].name, job.infos[j].name)
        ensures Apart(job.infos[i].name, job.infos[j].name) ==> job.infos[i].name != job.infos[j].name
      {
        ApartIsNoCollision(job.infos[i].name, job.infos[j].name);
      }
    }
  }

  lemma {:induction false} ApartIsNoCollision(p: string, q: string)
    ensures Apart(p, q) <==> !Collide(p, q)
    ensures Apart(p, q) ==> p != q
  {
  }

  function Listed(members: seq<Member>): set<string> {
    set i | 0 <= i < |members| :: members[i].path
  }

  lemma {:induction false} ListedKeys(members: seq<Member>)
    ensures Expected(members).Keys == Listed(members)
  {
    forall p ensures p in Expected(members).Keys <==> p in Listed(members) {
      ExpectedPaths(members, p);
    }
  }

  lemma {:induction false} InfoIsRecord(job: Job, info: Info)
    requires ValidMembers(job.manifest.members)
    requires info.name == SPECIAL || info.name in Expected(job.manifest.members)
    ensures ValidInfo(job, Expected(job.manifest.members), info) <==> TruthfulRecord(job, info)
  {
    hide SafeRelative, Expected;
    var members, expected := job.manifest.members, Expected(job.manifest.members);
    if info.name != SPECIAL {
      ExpectedHolds(members);
      var row := expected[info.name];
      var k :| 0 <= k < |members| && members[k] == row;
      forall j | 0 <= j < |members| && members[j].path == info.name ensures members[j] == row {
        ExpectedHoldsAt(members, j);
      }
      if ValidInfo(job, expected, info) {
        assert info == RecordOf(info.name, info.payload.value, info.mode, job.manifest.epoch);
        assert ListedRecord(job, info);
      }
    }
  }

  // ---------------------------------------------------------------- the special row

  function WithRow(job: Job, i: nat, row: Member): Job
    requires i < |job.manifest.members|
  {
    job.(manifest := job.manifest.(members := job.manifest.members[i := row]))
  }

  lemma {:induction false} ExpectedUpdated(members: seq<Member>, i: nat, row: Member)
    requires i < |members| && row.path == members[i].path
    requires forall j, k | 0 <= j < k < |members| :: members[j].path != members[k].path
    ensures Expected(members[i := row]) == Expected(members)[row.path := row]
  {
    var n := |members| - 1;
    var init, next := members[..n], members[i := row];
    if i < n {
      ExpectedUpdated(init, i, row);
      assert next[..n] == init[i := row] && next[n] == members[n];
    } else {
      assert next[..n] == init && next[n] == row;
    }
  }

  /** Whether a job is accepted does not depend on the special row's size or mode, nor on its hash
      unless a controller is frozen there. */
  lemma {:induction false} SpecialRowIgnored(job: Job, i: nat, row: Member)
    requires i < |job.manifest.members| && job.manifest.members[i].path == SPECIAL == row.path
    requires ValidMember(job.manifest.members[i]) && ValidMember(row)
    requires row.sha256 == job.manifest.members[i].sha256
          || forall k | 0 <= k < |job.controllers| :: job.controllers[k].frozenPath != SPECIAL
    ensures Accepts(WithRow(job, i, row)) <==> Accepts(job)
  {
    hide ValidMember, ChecksPass, Expected, ValidMembers;
    var members, changed := job.manifest.members, WithRow(job, i, row);
    SpecialRowKeepsMembers(members, i, row);
    if ValidMembers(members) {
      PathsDiffer(members);
      ExpectedUpdated(members, i, row);
      ExpectedHoldsAt(members, i);
      SpecialRowKeepsChecks(job, changed, Expected(members), row);
    }
  }

  lemma {:induction false} PathsDiffer(members: seq<Member>)
    requires ValidMembers(members)
    ensures forall j, k | 0 <= j < k < |members| :: members[j].path != members[k].path
  {
  }

  lemma {:induction false} SpecialRowKeepsChecks(job: Job, changed: Job, expected: map<string, Member>, row: Member)
    requires changed == job.(manifest := changed.manifest)
    requires changed.manifest == job.manifest.(members := changed.manifest.members)
    requires SPECIAL in expected
    requires row.sha256 == expected[SPECIAL].sha256
          || forall k | 0 <= k < |job.controllers| :: job.controllers[k].frozenPath != SPECIAL
    ensures ChecksPass(changed, expected[SPECIAL := row]) <==> ChecksPass(job, expected)
  {
    hide SafeRelative, Collide, MemberFails;
    var next := expected[SPECIAL := row];
    assert next.Keys == expected.Keys;
    forall k | 0 <= k < |job.controllers|
      ensures Bound(job.controllers[k], next) <==> Bound(job.controllers[k], expected)
    {
    }
    assert Covered(job.infos, next) <==> Covered(job.infos, expected);
    if Covered(job.infos, expected) {
      forall k | 0 <= k < |job.infos|
        ensures ValidInfo(changed, next, job.infos[k]) <==> ValidInfo(job, expected, job.infos[k])
        ensures MemberFails(changed, k) <==> MemberFails(job, k)
      {
        SameFaults(job, changed, k);
      }
      hide ValidInfo;
      assert Extracts(changed, next, |job.infos|) <==> Extracts(job, expected, |job.infos|);
    }
  }

  lemma {:induction false} SameFaults(job: Job, changed: Job, k: nat)
    requires changed.faults == job.faults
    ensures MemberFails(changed, k) <==> MemberFails(job, k)
  {
  }

  /** So every accepted job that lists its special file stays accepted with a row that is wrong, and
      then extracts a complete tree that contradicts the manifest. */
  lemma {:induction false} WrongSpecialRowAccepted(job: Job, i: nat)
    requires Accepts(job) && i < |job.manifest.members| && job.manifest.members[i].path == SPECIAL
    ensures var wrong := job.manifest.members[i].(size := |job.manifest.content| + 1);
      Accepts(WithRow(job, i, wrong)) && !Matches(job, wrong, File(job.manifest.content, MODE_0644))
  {
    var row := job.manifest.members[i];
    assert ValidMember(row);
    SpecialRowIgnored(job, i, row.(size := |job.manifest.content| + 1));
  }

  /** A manifest that lists only its own file. */
  function SelfListingJob(content: Bytes, hash: Bytes -> string, row: Member): Job {
    Job(Manifest([row], content, 0), [],
        [Info(SPECIAL, Regular, Some(content), |content|, MODE_0644, 0, 0, "", "", 0)], hash, _ => false, 0, {})
  }

  lemma {:induction false} SpecialIsSafe()
    ensures SafeRelative(SPECIAL)
  {
    SplitAt(SPECIAL, "", '/');
    NormalRelativePaths(SPECIAL);
  }

  /** Such jobs exist for any manifest bytes, hash function and valid special row. */
  lemma {:induction false} SelfListingAccepted(content: Bytes, hash: Bytes -> string, row: Member)
    requires row.path == SPECIAL && row.isFile && row.mode in {MODE_0644, MODE_0755}
    ensures Accepts(SelfListingJob(content, hash, row))
    ensures SPECIAL in Expected(SelfListingJob(content, hash, row).manifest.members)
  {
    hide SafeRelative, Collide;
    var job := SelfListingJob(content, hash, row);
    var members := job.manifest.members;
    assert members[..0] == [] && Expected([]) == map[];
    assert Expected(members) == map[SPECIAL := row];
    SpecialIsSafe();
    assert job.infos[0].name in Names(job.infos);
    assert Names(job.infos) == {SPECIAL} == Expected(members).Keys + {SPECIAL};
    assert ValidInfo(job, Expected(members), job.infos[0]);
    assert !MemberFails(job, 0);
  }

  lemma {:induction false} SpecialRowKeepsMembers(members: seq<Member>, i: nat, row: Member)
    requires i < |members| && members[i].path == row.path && ValidMember(members[i]) && ValidMember(row)
    ensures ValidMembers(members[i := row]) <==> ValidMembers(members)
  {
    hide ValidMember;
    if ValidMembers(members[i := row]) {
      forall j | 0 <= j < |members| ensures ValidMember(members[j]) {
        assert j == i || members[i := row][j] == members[j];
      }
      forall j, k | 0 <= j < k < |members| ensures members[j].path != members[k].path {
        assert members[i := row][j].path != members[i := row][k].path;
      }
    }
  }

  lemma {:induction false} ExpectedHoldsAt(members: seq<Member>, i: nat)
    requires i < |members| && ValidMembers(members)
    ensures members[i].path in Expected(members) && Expected(members)[members[i].path] == members[i]
  {
    ExpectedHolds(members);
    var row := Expected(members)[members[i].path];
    var j :| 0 <= j < |members| && members[j] == row;
  }

}
