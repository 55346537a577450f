/** The apply run: every bundle becomes one client-side command, and the run stops at the
    first failure of the abort class. */
module ApplyRun {
  import opened Options
  import opened Text
  import opened Errors
  import opened Manifests

  datatype Spec = Spec(onFailure: string, action: string, args: seq<string>)

  datatype Client = Command(spec: Spec) | Rejected(cause: Err)

  /** The outside world: manifest files, the search path for executables, path joining, and
      the outcome of a command, which may depend on how many bundles ran before it. */
  datatype Host = Host(
    read: string -> Client,
    lookPath: string -> Option<Err>,
    joinPath: (string, string) -> string,
    execute: (nat, Spec) -> Option<Err>)

  const ACTION_CMD := "cmd"
  const ACTION_KUBECTL := "kubectl"

  /** The files of a bundle. */
  function Paths(host: Host, b: Bundle): (paths: seq<string>) {
    seq(|b.manifests|, i requires 0 <= i < |b.manifests| => host.joinPath(b.root, b.manifests[i].name))
  }

  function BundleString(host: Host, b: Bundle): string {
    Join(Paths(host, b), ',')
  }

  function ClientSideApply(host: Host, b: Bundle): Client {
    if !b.isLocal then Rejected(Message("not a local manifest bundle"))
    else if |b.manifests| != 1 then Rejected(Message("contains more than one manifest, expected 1"))
    else host.read(b.manifests[0].name)
  }

  function KubectlApply(host: Host, b: Bundle): Client {
    if b.isLocal then Rejected(Message("local manifest bundle, expected remote"))
    else if |b.manifests| == 0 then Rejected(Message("contains no manifests"))
    else Command(Spec(FAILURE_ABORT, ACTION_KUBECTL, ["apply", "-f", BundleString(host, b), "--wait"]))
  }

  function ClientOf(host: Host, b: Bundle): Client {
    if b.isLocal then ClientSideApply(host, b) else KubectlApply(host, b)
  }

  /** The runner of an action: commands need none, everything else an executable. */
  function NewRunner(host: Host, action: string): Option<Err> {
    if action == ACTION_CMD then None else host.lookPath(action)
  }

  /** The error of applying a bundle as step i of the run. */
  function Outcome(host: Host, i: nat, b: Bundle): Option<Err> {
    match ClientOf(host, b)
    case Rejected(cause) =>
      Some(AbortError(Formatted("failed to create ClientSideApplyManifest for bundle " + BundleString(host, b), cause)))
    case Command(spec) =>
      match NewRunner(host, spec.action)
      case Some(e) => Some(AbortError(e))
      case None =>
        Wrapf(NewError(spec.onFailure, host.execute(i, spec)),
              "unable to execute client-side apply for bundle " + BundleString(host, b))
  }

  ghost predicate Aborts(host: Host, i: nat, b: Bundle) {
    IsSome(Outcome(host, i, b), ErrAbort)
  }

  /** How a run over the bundles goes: `ran` are the bundles that were applied. It returns its
      state exactly when no bundle aborts; otherwise it returns the error of the first one
      that does, having applied everything up to it and nothing after. */
  ghost predicate RunOf(host: Host, bundles: seq<Bundle>, done: bool, err: Option<Err>, ran: seq<Bundle>) {
    && ran <= bundles
    && (done <==> forall i | 0 <= i < |bundles| :: !Aborts(host, i, bundles[i]))
    && if done then ran == bundles && err.None?
       else
         && ran != []
         && err == Outcome(host, |ran| - 1, ran[|ran| - 1]) && IsSome(err, ErrAbort)
         && forall i | 0 <= i < |ran| - 1 :: !Aborts(host, i, bundles[i])
  }

  /** Applies the bundles in order, up to the first that aborts. */
  method Apply(host: Host, bundles: seq<Bundle>) returns (done: bool, err: Option<Err>, ran: seq<Bundle>)
    ensures RunOf(host, bundles, done, err, ran)
  {
    hide Outcome;
    ran := [];
    for i := 0 to |bundles|
      invariant ran == bundles[..i] && forall j | 0 <= j < i :: !Aborts(host, j, bundles[j])
    {
      var e := Outcome(host, i, bundles[i]);
      ran := ran + [bundles[i]];
      if IsSome(e, ErrAbort) {
        assert Aborts(host, i, bundles[i]);
        return false, e, ran;
      }
    }
    return true, None, ran;
  }

  /** A run over given bundles can go only one way. */
  lemma RunIsDetermined(host: Host, bundles: seq<Bundle>, done: bool, err: Option<Err>, ran: seq<Bundle>,
                        done': bool, err': Option<Err>, ran': seq<Bundle>)
    requires RunOf(host, bundles, done, err, ran) && RunOf(host, bundles, done', err', ran')
    ensures done == done' && err == err' && ran == ran'
  {
    hide Outcome;
    if !done {
      assert Aborts(host, |ran| - 1, bundles[|ran| - 1]) && Aborts(host, |ran'| - 1, bundles[|ran'| - 1]);
      assert ran == bundles[..|ran|] && ran' == bundles[..|ran'|];
    }
  }

  /** AppPlan.Apply over the manifests found below root. */
  method ApplyPlan(host: Host, root: string, manifests: map<string, seq<Manifest>>)
    returns (done: bool, err: Option<Err>, ran: seq<Bundle>)
    ensures forall bundles | IsNormalized(root, manifests, bundles) :: RunOf(host, bundles, done, err, ran)
    ensures exists bundles :: IsNormalized(root, manifests, bundles) && RunOf(host, bundles, done, err, ran)
  {
    hide IsNormalized, RunOf;
    var bundles := NormalizeManifests(root, manifests);
    done, err, ran := Apply(host, bundles);
    forall bundles' | IsNormalized(root, manifests, bundles') ensures RunOf(host, bundles', done, err, ran) {
      NormalizationIsUnique(root, manifests, bundles, bundles');
    }
  }

  /** A well-shaped bundle is never rejected for its shape: a remote one always becomes a
      command, a local one fails only when its file cannot be read as a manifest. */
  lemma ShapeIsAccepted(host: Host, b: Bundle)
    requires WellShaped(b)
    ensures b.isLocal ==> ClientOf(host, b) == host.read(b.manifests[0].name)
    ensures !b.isLocal ==>
              ClientOf(host, b) == Command(Spec(FAILURE_ABORT, ACTION_KUBECTL,
                                                ["apply", "-f", BundleString(host, b), "--wait"]))
  {
  }

  /** When a well-shaped bundle aborts the run: its manifest cannot be read, the executable
      is missing, or the command fails under onFailure "abort", which is how every remote
      bundle is run. A failure under "continue", or under an unknown setting, does not. */
  lemma AbortsExactly(host: Host, i: nat, b: Bundle)
    requires WellShaped(b)
    ensures Aborts(host, i, b) <==>
            match ClientOf(host, b)
            case Rejected(_) => true
            case Command(spec) =>
              || (spec.action != ACTION_CMD && host.lookPath(spec.action).Some?)
              || (host.execute(i, spec).Some? && spec.onFailure == FAILURE_ABORT)
    ensures !b.isLocal ==> (Aborts(host, i, b) <==>
              var spec := Spec(FAILURE_ABORT, ACTION_KUBECTL, ["apply", "-f", BundleString(host, b), "--wait"]);
              host.lookPath(ACTION_KUBECTL).Some? || host.execute(i, spec).Some?)
  {
    ShapeIsAccepted(host, b);
    match ClientOf(host, b)
    case Rejected(_) =>
    case Command(spec) =>
      var message := "unable to execute client-side apply for bundle " + BundleString(host, b);
      var e := NewError(spec.onFailure, host.execute(i, spec));
      FailureClass(spec.onFailure, host.execute(i, spec), [WithMessage(message)]);
      assert WrapAll(e, []) == e;
      assert WrapAll(e, [WithMessage(message)]) == Wrapf(e, message);
  }

  /** The bundles of a directory tree never abort the run for their shape: if every local
      manifest can be read, every bundle becomes a command. */
  lemma NormalizedBundlesAreAccepted(host: Host, root: string, manifests: map<string, seq<Manifest>>,
                                     bundles: seq<Bundle>)
    requires IsNormalized(root, manifests, bundles)
    requires forall d, m | d in manifests && m in manifests[d] && m.isLocal :: host.read(m.name).Command?
    ensures forall b | b in bundles :: ClientOf(host, b).Command?
  {
    var dirs, parts :| Normalized(root, manifests, dirs, parts, bundles);
    NothingIsLost(root, manifests, dirs, bundles);
    hide Normalized, IsNormalized, ClientOf;
    forall b | b in bundles ensures ClientOf(host, b).Command? {
      ShapeIsAccepted(host, b);
      if b.isLocal {
        BundledManifestIsListed(bundles, b, b.manifests[0]);
        ListedIsInSomeDirectory(manifests, dirs, b.manifests[0]);
      }
    }
  }

  lemma {:induction false} BundledManifestIsListed(bs: seq<Bundle>, b: Bundle, m: Manifest)
    requires b in bs && m in b.manifests
    ensures m in Flatten(bs)
  {
    if bs[|bs| - 1] != b {
      assert b in bs[..|bs| - 1];
      BundledManifestIsListed(bs[..|bs| - 1], b, m);
    }
  }

  lemma {:induction false} ListedIsInSomeDirectory(manifests: map<string, seq<Manifest>>, dirs: seq<string>,
                                                   m: Manifest)
    requires forall d | d in dirs :: d in manifests
    requires m in ListAll(manifests, dirs)
    ensures exists d :: d in manifests && m in manifests[d]
  {
    var d := dirs[|dirs| - 1];
    if m !in manifests[d] {
      ListedIsInSomeDirectory(manifests, dirs[..|dirs| - 1], m);
    }
  }

  // ---------------------------------------------------------------- the files of the commands

  /** Taken apart at the commas, the argument for kubectl names the file of every manifest of the
      bundle, once and in order, exactly if no path contains a comma. */
  lemma BundleStringExactly(host: Host, b: Bundle)
    requires b.manifests != []
    ensures (forall m | m in b.manifests :: ',' !in host.joinPath(b.root, m.name)) <==>
              && |Split(BundleString(host, b), ',')| == |b.manifests|
              && forall i | 0 <= i < |b.manifests| ::
                   Split(BundleString(host, b), ',')[i] == host.joinPath(b.root, b.manifests[i].name)
  {
    var paths, parts := Paths(host, b), Split(BundleString(host, b), ',');
    SplitHasNoSeparator(BundleString(host, b), ',');
    if forall m | m in b.manifests :: ',' !in host.joinPath(b.root, m.name) {
      SplitOfJoin(paths, ',');
    } else {
      var m :| m in b.manifests && ',' in host.joinPath(b.root, m.name);
      var i :| 0 <= i < |b.manifests| && b.manifests[i] == m;
      assert |parts| == |b.manifests| ==> parts[i] in parts;
    }
  }

  /** The files that the command of a bundle hands to kubectl, if it is a remote bundle. */
  ghost function FilesOf(host: Host, b: Bundle): seq<string> {
    match ClientOf(host, b)
    case Rejected(_) => []
    case Command(spec) => if b.isLocal || |spec.args| < 3 then [] else Split(spec.args[2], ',')
  }

  ghost function FilesOfAll(host: Host, bundles: seq<Bundle>): seq<string> {
    if bundles == [] then [] else FilesOfAll(host, bundles[..|bundles| - 1]) + FilesOf(host, bundles[|bundles| - 1])
  }

  /** The files of the manifests that are not local, in order. */
  ghost function RemoteFiles(host: Host, root: string, ms: seq<Manifest>): seq<string> {
    if ms == [] then []
    else
      var last := ms[|ms| - 1];
      RemoteFiles(host, root, ms[..|ms| - 1]) + if last.isLocal then [] else [host.joinPath(root, last.name)]
  }

  lemma {:induction false} RemoteFilesJoin(host: Host, root: string, a: seq<Manifest>, b: seq<Manifest>)
    ensures RemoteFiles(host, root, a + b) == RemoteFiles(host, root, a) + RemoteFiles(host, root, b)
    decreases |b|
  {
    if b == [] {
      assert a + b == a;
    } else {
      assert (a + b)[..|a + b| - 1] == a + b[..|b| - 1];
      RemoteFilesJoin(host, root, a, b[..|b| - 1]);
    }
  }

  lemma {:induction false} AllRemote(host: Host, root: string, ms: seq<Manifest>)
    requires forall m | m in ms :: !m.isLocal
    ensures |RemoteFiles(host, root, ms)| == |ms|
    ensures forall i | 0 <= i < |ms| :: RemoteFiles(host, root, ms)[i] == host.joinPath(root, ms[i].name)
  {
    if ms != [] {
      AllRemote(host, root, ms[..|ms| - 1]);
    }
  }

  lemma FilesOfBundle(host: Host, b: Bundle)
    requires WellShaped(b) && forall m | m in b.manifests :: ',' !in host.joinPath(b.root, m.name)
    ensures FilesOf(host, b) == RemoteFiles(host, b.root, b.manifests)
  {
    if b.isLocal {
      assert b.manifests[..0] == [];
    } else {
      BundleStringExactly(host, b);
      AllRemote(host, b.root, b.manifests);
      hide BundleString, RemoteFiles;
      assert FilesOf(host, b) == Split(BundleString(host, b), ',');
    }
  }

  lemma {:induction false} FilesOfBundles(host: Host, root: string, bundles: seq<Bundle>)
    requires forall b | b in bundles :: b.root == root && WellShaped(b)
    requires forall m | m in Flatten(bundles) :: ',' !in host.joinPath(root, m.name)
    ensures FilesOfAll(host, bundles) == RemoteFiles(host, root, Flatten(bundles))
  {
    if bundles != [] {
      var front, last := bundles[..|bundles| - 1], bundles[|bundles| - 1];
      hide FilesOf, RemoteFiles, WellShaped;
      FilesOfBundles(host, root, front);
      FilesOfBundle(host, last);
      RemoteFilesJoin(host, root, Flatten(front), last.manifests);
    } else {
      assert Flatten(bundles) == [];
    }
  }

  /** Over all commands of a run, kubectl is handed the file of every manifest below root that is not
      local, once and in the order of the directories, if no path contains a comma. */
  lemma EveryRemoteFileIsHandedOver(host: Host, root: string, manifests: map<string, seq<Manifest>>,
                                    dirs: seq<string>, bundles: seq<Bundle>)
    requires IsNormalized(root, manifests, bundles)
    requires Increasing(dirs) && forall d :: d in dirs <==> d in manifests
    requires forall d, m | d in manifests && m in manifests[d] :: ',' !in host.joinPath(root, m.name)
    ensures FilesOfAll(host, bundles) == RemoteFiles(host, root, ListAll(manifests, dirs))
  {
    NothingIsLost(root, manifests, dirs, bundles);
    hide IsNormalized, FilesOfAll, RemoteFiles, Increasing;
    forall m | m in Flatten(bundles) ensures ',' !in host.joinPath(root, m.name) {
      ListedIsInSomeDirectory(manifests, dirs, m);
    }
    FilesOfBundles(host, root, bundles);
  }
}
