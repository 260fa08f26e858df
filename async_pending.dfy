/**
  The decisions the object updater (swift/obj/updater.py) makes about
  async-pending container updates, as pure functions: which device
  directories hold async pendings and for which storage policy, how an
  update file is named, which container replies count as success, the
  headers sent, which container nodes still need the update, and what
  becomes of the file afterwards. The updater's sweeps (module Updater)
  are specified with these.
 */
module AsyncPending {
  import opened Wrappers
  import opened PyStr

  // ---------------------------------------------------------------------------
  // Async-pending directories and storage policies
  // ---------------------------------------------------------------------------

  /** ASYNCDIR_BASE: the name of the async-pending directory of storage policy 0. */
  const AsyncDirBase: string := "async_pending"

  /** What a directory name at the top of a device means to the sweep. */
  datatype DirPolicy =
    | NotAsyncDir            // anything else ("objects", "tmp", ...): skipped
    | UnknownPolicy          // `async_pending-X` where X is no valid policy index: skipped with a warning
    | Policy(index: int)     // the async pendings of this storage policy

  /**
    The policy an async-pending directory belongs to. `async_pending` is policy
    0; for `async_pending-N`, N must read as an integer (`int(N)`) that
    `validPolicy` (the storage-policy table behind `get_async_dir`) accepts.
   */
  function AsyncDirPolicy(name: string, validPolicy: int -> bool): (r: DirPolicy)
    ensures r.NotAsyncDir? <==> !(name == AsyncDirBase || IsPrefix(AsyncDirBase + "-", name))
    ensures name == AsyncDirBase ==> r == Policy(0)
    ensures name != AsyncDirBase && IsPrefix(AsyncDirBase + "-", name) ==>
              match ParseInt(name[|AsyncDirBase| + 1..])
              case None => r == UnknownPolicy
              case Some(i) => r == (if validPolicy(i) then Policy(i) else UnknownPolicy)
  {
    if name == AsyncDirBase then Policy(0)
    else if IsPrefix(AsyncDirBase + "-", name) then
      // the base name holds no '-', so `split('-', 1)` cuts right after it
      match ParseInt(name[|AsyncDirBase| + 1..])
      case None => UnknownPolicy
      case Some(i) => if validPolicy(i) then Policy(i) else UnknownPolicy
    else NotAsyncDir
  }

  /** `async_pending-<str(i)>` maps back to policy `i` whenever `i` is a valid policy. */
  lemma AsyncDirPolicyOfIndex(i: int, validPolicy: int -> bool)
    requires validPolicy(i)
    ensures AsyncDirPolicy(AsyncDirBase + "-" + IntToString(i), validPolicy) == Policy(i)
  {
    var name := AsyncDirBase + "-" + IntToString(i);
    assert name[..|AsyncDirBase| + 1] == AsyncDirBase + "-";
    assert name[|AsyncDirBase| + 1..] == IntToString(i);
    ParseIntOfIntToString(i);
    assert name != AsyncDirBase by {
      assert |name| > |AsyncDirBase|;
    }
  }

  /** `int()` lets white space follow the sign, so `async_pending-+ 1` is the directory of policy 1. */
  lemma AsyncDirPolicySpacedSign(validPolicy: int -> bool)
    requires validPolicy(1)
    ensures AsyncDirPolicy("async_pending-+ 1", validPolicy) == Policy(1)
  {
    var name := "async_pending-+ 1";
    assert name[..|AsyncDirBase| + 1] == AsyncDirBase + "-";
    assert name[|AsyncDirBase| + 1..] == "+ 1";
    ParseIntSpaceAfterSign();
  }

  // ---------------------------------------------------------------------------
  // Update file names: <object hash>-<timestamp>
  // ---------------------------------------------------------------------------

  /**
    `obj_hash, timestamp = name.split('-')`: succeeds exactly when the name
    holds one '-', and then the two parts are what lies on either side of it.
   */
  function SplitUpdateName(name: string): (r: Option<(string, string)>)
    ensures r.Some? <==> Count(name, '-') == 1
    ensures r.Some? ==> name == r.value.0 + "-" + r.value.1 && '-' !in r.value.0 && '-' !in r.value.1
  {
    var parts := Split(name, '-');
    if |parts| == 2 then
      assert Join(parts, '-') == parts[0] + "-" + Join(parts[1..], '-');
      assert parts[1..] == [parts[1]];
      Some((parts[0], parts[1]))
    else None
  }

  /** The object hash of a well-formed update name. */
  function HashOf(name: string): string {
    match SplitUpdateName(name)
    case Some((h, _)) => h
    case None => []
  }

  /** A well-formed name that starts with `h-` has hash `h`. */
  lemma HashFromPrefix(h: string, name: string)
    requires '-' !in h && IsPrefix(h + "-", name) && SplitUpdateName(name).Some?
    ensures HashOf(name) == h
  {
    var (h', t) := SplitUpdateName(name).value;
    assert name == h' + "-" + t;
    assert IsPrefix(h' + "-", name) by {
      assert name[..|h'| + 1] == h' + "-";
    }
    SameFirstSeparator(h, h', '-', name);
  }

  /** A well-formed name starts with its hash and a '-'. */
  lemma HashIsPrefix(name: string)
    requires SplitUpdateName(name).Some?
    ensures IsPrefix(HashOf(name) + "-", name) && '-' !in HashOf(name)
  {
    var (h, t) := SplitUpdateName(name).value;
    assert name[..|h| + 1] == h + "-";
  }

  // ---------------------------------------------------------------------------
  // Container updates: nodes, replies, headers
  // ---------------------------------------------------------------------------

  /** A container server as the container ring describes it. */
  datatype Node = Node(id: int, ip: string, port: int, device: string)

  /** The pickled record of an update: the request to replay and the ids of the nodes that took it. */
  datatype Update = Update(
    op: string,
    account: string,
    container: string,
    obj: string,
    headers: map<string, string>,
    successes: seq<int>)

  /** What an async-pending file holds: an update, or something that does not unpickle. */
  datatype Content = Pickled(update: Update) | Unreadable

  /** An entry of a prefix directory: a regular file, or anything else (`isfile` false). */
  datatype Entry = UpdateFile(content: Content) | NotAFile

  datatype PrefixPath = PrefixPath(asyncdir: string, prefix: string)

  /** `<device>/<asyncdir>/<prefix>/<name>`, relative to the device. */
  datatype UpdatePath = UpdatePath(asyncdir: string, prefix: string, name: string)

  function DirOf(k: UpdatePath): PrefixPath {
    PrefixPath(k.asyncdir, k.prefix)
  }

  /** The container ring: partition and nodes of an account/container. */
  type Ring = (string, string) -> (nat, seq<Node>)

  /** How a container node answers the update of a file on a device. */
  type Responder = (string, UpdatePath, Node) -> Reply

  /** The answer to one container update: a status, or an exception or timeout. */
  datatype Reply = Response(status: int) | Raised

  /** The first half of what `object_update` returns: a verdict, or HTTP_INTERNAL_SERVER_ERROR. */
  datatype EventResult = Verdict(ok: bool) | ErrorStatus(status: int)

  const HttpNotFound: int := 404
  const HttpInternalServerError: int := 500

  /** `is_success`: a 2xx status. */
  predicate IsSuccess(status: int) {
    200 <= status <= 299
  }

  /** `event_success is True`: only a `True` verdict counts; the error status does not. */
  predicate Acked(r: EventResult) {
    r == Verdict(true)
  }

  /**
    The outcome of `object_update`: a container reply succeeds when its status
    is 2xx or 404; an exception or timeout yields status 500.
   */
  function ObjectUpdate(reply: Reply): (r: EventResult)
    ensures Acked(r) <==> reply.Response? && (IsSuccess(reply.status) || reply.status == HttpNotFound)
    ensures reply.Raised? ==> r == ErrorStatus(HttpInternalServerError) && !Acked(r)
  {
    match reply
    case Response(status) => Verdict(IsSuccess(status) || status == HttpNotFound)
    case Raised => ErrorStatus(HttpInternalServerError)
  }

  const UserAgentHeader: string := "user-agent"
  const PolicyIndexHeader: string := "X-Backend-Storage-Policy-Index"

  function UserAgent(pid: nat): string {
    "object-updater " + IntToString(pid)
  }

  /**
    The headers sent with an update: a copy of the stored ones with
    `user-agent` set and the policy index added only when the stored headers
    lack it. The stored headers are a value here and stay as they were.
   */
  function HeadersOut(stored: map<string, string>, pid: nat, policy: int): (h: map<string, string>)
    ensures h.Keys == stored.Keys + {UserAgentHeader, PolicyIndexHeader}
    ensures h[UserAgentHeader] == UserAgent(pid)
    ensures PolicyIndexHeader in stored ==> h[PolicyIndexHeader] == stored[PolicyIndexHeader]
    ensures PolicyIndexHeader !in stored ==> h[PolicyIndexHeader] == IntToString(policy)
    ensures forall name :: name in stored && name != UserAgentHeader ==> h[name] == stored[name]
  {
    var h := stored[UserAgentHeader := UserAgent(pid)];
    if PolicyIndexHeader in h then h else h[PolicyIndexHeader := IntToString(policy)]
  }

  /** The container path of an update, `/<account>/<container>/<obj>`. */
  function ObjPath(u: Update): string {
    "/" + u.account + "/" + u.container + "/" + u.obj
  }

  /** One container update sent to a node. */
  datatype Request = Request(
    device: string,
    path: UpdatePath,
    node: Node,
    partition: nat,
    op: string,
    obj: string,
    headers: map<string, string>)

  /**
    The nodes an update is sent to: those whose id is not yet among the
    stored successes, in ring order. Its own contract is only a length bound;
    which nodes these are is `TargetsMembers`.
   */
  function Targets(nodes: seq<Node>, acked: seq<int>): (t: seq<Node>)
    ensures |t| <= |nodes|
  {
    if nodes == [] then []
    else (if nodes[0].id in acked then [] else [nodes[0]]) + Targets(nodes[1..], acked)
  }

  /** A node is a target exactly when it is in the ring's list and its id is not a stored success. */
  lemma {:induction false} TargetsMembers(nodes: seq<Node>, acked: seq<int>)
    ensures forall n :: n in Targets(nodes, acked) <==> n in nodes && n.id !in acked
  {
    if nodes != [] {
      TargetsMembers(nodes[1..], acked);
      assert nodes == [nodes[0]] + nodes[1..];
    }
  }

  /** Whether node `n` takes the update of `k` on device `dev`. */
  predicate AckedBy(respond: Responder, dev: string, k: UpdatePath, n: Node) {
    Acked(ObjectUpdate(respond(dev, k, n)))
  }

  /**
    The ids of the targets that took the update, in the order they were
    waited for. Its own contract is only a length bound; which ids these are
    is `AckedMeans`.
   */
  function NewlyAcked(targets: seq<Node>, respond: Responder, dev: string, k: UpdatePath): (ids: seq<int>)
    ensures |ids| <= |targets|
  {
    if targets == [] then []
    else
      var last := targets[|targets| - 1];
      NewlyAcked(targets[..|targets| - 1], respond, dev, k) + (if AckedBy(respond, dev, k, last) then [last.id] else [])
  }

  /** `success` after waiting for every target: no target failed (see `AckedMeans`). */
  predicate AllAcked(targets: seq<Node>, respond: Responder, dev: string, k: UpdatePath) {
    targets == [] ||
    (AllAcked(targets[..|targets| - 1], respond, dev, k) && AckedBy(respond, dev, k, targets[|targets| - 1]))
  }

  /** `new_successes` after waiting for every target: some target took the update (see `AckedMeans`). */
  predicate AnyAcked(targets: seq<Node>, respond: Responder, dev: string, k: UpdatePath) {
    targets != [] &&
    (AnyAcked(targets[..|targets| - 1], respond, dev, k) || AckedBy(respond, dev, k, targets[|targets| - 1]))
  }

  /**
    What the waiting loop computes: `success` holds when every target took
    the update, `new_successes` when one did, and the ids appended are those
    of the targets that did.
   */
  lemma {:induction false} AckedMeans(targets: seq<Node>, respond: Responder, dev: string, k: UpdatePath)
    ensures AllAcked(targets, respond, dev, k) <==> forall n :: n in targets ==> AckedBy(respond, dev, k, n)
    ensures AnyAcked(targets, respond, dev, k) <==> exists n :: n in targets && AckedBy(respond, dev, k, n)
    ensures forall id :: id in NewlyAcked(targets, respond, dev, k) <==>
      exists n :: n in targets && AckedBy(respond, dev, k, n) && n.id == id
  {
    if targets != [] {
      var init := targets[..|targets| - 1];
      var last := targets[|targets| - 1];
      AckedMeans(init, respond, dev, k);
      assert targets == init + [last];
      assert forall n :: n in targets <==> n in init || n == last;
    }
  }

  /** The requests sent for an update: one per target, in ring order. */
  function Requests(dev: string, k: UpdatePath, targets: seq<Node>, part: nat, u: Update, headers: map<string, string>): (rs: seq<Request>)
    ensures |rs| == |targets|
    ensures forall i :: 0 <= i < |rs| ==> rs[i] == Request(dev, k, targets[i], part, u.op, ObjPath(u), headers)
  {
    seq(|targets|, i requires 0 <= i < |targets| => Request(dev, k, targets[i], part, u.op, ObjPath(u), headers))
  }

  /** Every target gets a request. */
  lemma RequestsReachTargets(dev: string, k: UpdatePath, targets: seq<Node>, part: nat, u: Update, headers: map<string, string>)
    ensures forall n :: n in targets ==> exists r :: r in Requests(dev, k, targets, part, u, headers) && r.node == n
  {
    var rs := Requests(dev, k, targets, part, u, headers);
    forall n | n in targets ensures exists r :: r in rs && r.node == n {
      var i :| 0 <= i < |targets| && targets[i] == n;
      assert rs[i].node == n;
    }
  }

  // ---------------------------------------------------------------------------
  // What processing does to one file
  // ---------------------------------------------------------------------------

  /**
    What `process_object_update` does with a file: an unreadable file is
    quarantined; a readable one is delivered when every target took it, and
    is otherwise kept for a retry, rewritten with the enlarged list of
    successes only when some target took it.
   */
  datatype Outcome = Quarantined | Delivered | Retry(rewrite: Option<Update>)

  function ProcessOutcome(c: Content, ring: Ring, respond: Responder, dev: string, k: UpdatePath): Outcome {
    match c
    case Unreadable => Quarantined
    case Pickled(u) =>
      var targets := Targets(ring(u.account, u.container).1, u.successes);
      if AllAcked(targets, respond, dev, k) then Delivered
      else if AnyAcked(targets, respond, dev, k) then
        Retry(Some(u.(successes := u.successes + NewlyAcked(targets, respond, dev, k))))
      else Retry(None)
  }

  /** The node ids of a ring are unique. */
  predicate UniqueIds(nodes: seq<Node>) {
    forall m, n :: m in nodes && n in nodes && m.id == n.id ==> m == n
  }

  /**
    The file is delivered, and removed, exactly when every node it was sent to
    took it; with no node left to send to this holds vacuously. A rewrite only
    appends, and appends at least one id.
   */
  lemma OutcomeOfReadable(u: Update, ring: Ring, respond: Responder, dev: string, k: UpdatePath)
    ensures var targets := Targets(ring(u.account, u.container).1, u.successes);
      var out := ProcessOutcome(Pickled(u), ring, respond, dev, k);
      && (out == Delivered <==> forall n :: n in targets ==> AckedBy(respond, dev, k, n))
      && (targets == [] ==> out == Delivered)
      && (out.Retry? && out.rewrite.Some? ==>
            && (exists n :: n in targets && AckedBy(respond, dev, k, n))
            && |out.rewrite.value.successes| > |u.successes|
            && out.rewrite.value.successes[..|u.successes|] == u.successes
            && out.rewrite.value == u.(successes := out.rewrite.value.successes))
      && (out == Retry(None) ==> forall n :: n in targets ==> !AckedBy(respond, dev, k, n))
  {
    var targets := Targets(ring(u.account, u.container).1, u.successes);
    var out := ProcessOutcome(Pickled(u), ring, respond, dev, k);
    AckedMeans(targets, respond, dev, k);
    if out.Retry? && out.rewrite.Some? {
      var n :| n in targets && AckedBy(respond, dev, k, n);
      assert n.id in NewlyAcked(targets, respond, dev, k);
    }
  }

  /**
    After a failed round, the next sweep sends the update to exactly the nodes
    that did not take it this time, whether the file was rewritten or not.
   */
  lemma RetryTargetsTheFailedNodes(u: Update, ring: Ring, respond: Responder, dev: string, k: UpdatePath)
    requires UniqueIds(ring(u.account, u.container).1)
    requires ProcessOutcome(Pickled(u), ring, respond, dev, k).Retry?
    ensures var nodes := ring(u.account, u.container).1;
      var targets := Targets(nodes, u.successes);
      var out := ProcessOutcome(Pickled(u), ring, respond, dev, k);
      var stored := if out.rewrite.Some? then out.rewrite.value else u;
      forall n :: n in Targets(nodes, stored.successes) <==> n in targets && !AckedBy(respond, dev, k, n)
  {
    var nodes := ring(u.account, u.container).1;
    var targets := Targets(nodes, u.successes);
    var out := ProcessOutcome(Pickled(u), ring, respond, dev, k);
    var newIds := NewlyAcked(targets, respond, dev, k);
    var stored := if out.rewrite.Some? then out.rewrite.value else u;
    AckedMeans(targets, respond, dev, k);
    TargetsMembers(nodes, u.successes);
    TargetsMembers(nodes, stored.successes);
    if out.rewrite.Some? {
      forall n | n in nodes
        ensures n.id in u.successes + newIds <==> n.id in u.successes || (n in targets && AckedBy(respond, dev, k, n))
      {
        if n.id in newIds {
          var m :| m in targets && AckedBy(respond, dev, k, m) && m.id == n.id;
          assert m == n;
        }
      }
    }
  }

  // ---------------------------------------------------------------------------
  // Deduplication within a prefix directory
  // ---------------------------------------------------------------------------

  /** A regular file whose name splits into hash and timestamp: one the sweep acts on. */
  predicate IsCandidate(files: map<UpdatePath, Entry>, k: UpdatePath) {
    k in files && files[k].UpdateFile? && SplitUpdateName(k.name).Some?
  }

  /** Two candidates of the same directory for the same object. */
  predicate SameObject(j: UpdatePath, k: UpdatePath) {
    DirOf(j) == DirOf(k) && HashOf(j.name) == HashOf(k.name)
  }

  /** The greatest (newest) name among the candidates for its object in its directory. */
  ghost predicate IsNewest(files: map<UpdatePath, Entry>, k: UpdatePath) {
    IsCandidate(files, k) &&
    forall j :: IsCandidate(files, j) && SameObject(j, k) ==> !Below(k.name, j.name)
  }

  /** At most one file per object and prefix directory is processed. */
  lemma NewestIsUnique(files: map<UpdatePath, Entry>, j: UpdatePath, k: UpdatePath)
    requires IsNewest(files, j) && IsNewest(files, k) && SameObject(j, k)
    ensures j == k
  {
    if j.name != k.name {
      BelowTotal(j.name, k.name);
    }
  }

  /** Every object with a candidate in a directory has a newest one there, so it is processed. */
  lemma NewestExists(files: map<UpdatePath, Entry>, k: UpdatePath)
    requires IsCandidate(files, k)
    ensures exists j :: IsNewest(files, j) && SameObject(j, k)
  {
    var same := set j | j in files && IsCandidate(files, j) && SameObject(j, k);
    assert k in same;
    var top := Greatest(same);
    assert IsNewest(files, top);
  }

  /** A finite non-empty set of paths has one with the greatest name. */
  lemma Greatest(s: set<UpdatePath>) returns (top: UpdatePath)
    requires s != {}
    ensures top in s && forall j :: j in s ==> !Below(top.name, j.name)
    decreases |s|
  {
    var x :| x in s;
    if s == {x} {
      top := x;
      BelowIrreflexive(x.name);
    } else {
      var rest := Greatest(s - {x});
      if Below(rest.name, x.name) {
        top := x;
        forall j | j in s ensures !Below(top.name, j.name) {
          if j == x {
            BelowIrreflexive(x.name);
          } else {
            assert !Below(rest.name, j.name);
            if Below(x.name, j.name) {
              BelowTransitive(rest.name, x.name, j.name);
            }
          }
        }
      } else {
        top := rest;
      }
    }
  }

  function At(d: PrefixPath, name: string): UpdatePath {
    UpdatePath(d.asyncdir, d.prefix, name)
  }

  /**
    `last_obj_hash` after the names `names` (in listing order) of directory `d`
    have been visited: the hash of the last candidate among them.
   */
  function LastHash(files: map<UpdatePath, Entry>, d: PrefixPath, names: seq<string>): Option<string> {
    if names == [] then None
    else
      var n := names[|names| - 1];
      if IsCandidate(files, At(d, n)) then Some(HashOf(n))
      else LastHash(files, d, names[..|names| - 1])
  }

  lemma {:induction false} LastHashWitness(files: map<UpdatePath, Entry>, d: PrefixPath, names: seq<string>)
    ensures LastHash(files, d, names).None? ==> forall q :: 0 <= q < |names| ==> !IsCandidate(files, At(d, names[q]))
    ensures LastHash(files, d, names).Some? ==>
      exists q :: 0 <= q < |names| && IsCandidate(files, At(d, names[q]))
        && LastHash(files, d, names).value == HashOf(names[q])
        && forall r :: q < r < |names| ==> !IsCandidate(files, At(d, names[r]))
  {
    if names != [] {
      var init := names[..|names| - 1];
      LastHashWitness(files, d, init);
      assert forall q :: 0 <= q < |init| ==> init[q] == names[q];
    }
  }

  /** The names listed for directory `d`: every entry of `d` once, greatest first. */
  predicate IsSortedListing(files: map<UpdatePath, Entry>, d: PrefixPath, names: seq<string>) {
    && Descending(names)
    && Distinct(names)
    && (forall k :: k in files && DirOf(k) == d ==> k.name in names)
  }

  /**
    The deduplication rule of the sweep is exactly "process the newest file of
    each object": walking the names greatest first, a candidate is the newest
    for its object precisely when its hash differs from `last_obj_hash`.
   */
  lemma NewestIffNewHash(files: map<UpdatePath, Entry>, d: PrefixPath, names: seq<string>, i: nat)
    requires IsSortedListing(files, d, names)
    requires i < |names| && IsCandidate(files, At(d, names[i]))
    ensures IsNewest(files, At(d, names[i])) <==> LastHash(files, d, names[..i]) != Some(HashOf(names[i]))
  {
    if !IsNewest(files, At(d, names[i])) {
      SupersededWasSeen(files, d, names, i);
    }
    if LastHash(files, d, names[..i]) == Some(HashOf(names[i])) {
      SeenIsSuperseded(files, d, names, i);
    }
  }

  /** A candidate with a greater name for the same object comes earlier in the walk, so its hash is `last_obj_hash`. */
  lemma SupersededWasSeen(files: map<UpdatePath, Entry>, d: PrefixPath, names: seq<string>, i: nat)
    requires IsSortedListing(files, d, names)
    requires i < |names| && IsCandidate(files, At(d, names[i])) && !IsNewest(files, At(d, names[i]))
    ensures LastHash(files, d, names[..i]) == Some(HashOf(names[i]))
  {
    var k := At(d, names[i]);
    var h := HashOf(names[i]);
    var prev := names[..i];
    LastHashWitness(files, d, prev);
    var j :| IsCandidate(files, j) && SameObject(j, k) && Below(k.name, j.name);
    var m :| 0 <= m < |names| && names[m] == j.name;
    assert j == At(d, names[m]);
    if m == i {
      BelowIrreflexive(names[i]);
    }
    assert m < i;
    assert IsCandidate(files, At(d, prev[m]));
    var q :| 0 <= q < |prev| && IsCandidate(files, At(d, prev[q]))
      && LastHash(files, d, prev).value == HashOf(prev[q])
      && forall r :: q < r < |prev| ==> !IsCandidate(files, At(d, prev[r]));
    assert q >= m;
    if q > m {
      HashIsPrefix(names[m]);
      HashIsPrefix(names[i]);
      BetweenSharesPrefix(h + "-", names[i], names[q], names[m]);
      HashFromPrefix(h, names[q]);
    }
  }

  /** When `last_obj_hash` is the candidate's hash, an earlier, greater name of the same object supersedes it. */
  lemma SeenIsSuperseded(files: map<UpdatePath, Entry>, d: PrefixPath, names: seq<string>, i: nat)
    requires IsSortedListing(files, d, names)
    requires i < |names| && IsCandidate(files, At(d, names[i]))
    requires LastHash(files, d, names[..i]) == Some(HashOf(names[i]))
    ensures !IsNewest(files, At(d, names[i]))
  {
    var k := At(d, names[i]);
    var prev := names[..i];
    LastHashWitness(files, d, prev);
    var q :| 0 <= q < |prev| && IsCandidate(files, At(d, prev[q])) && HashOf(prev[q]) == HashOf(names[i]);
    assert names[q] != names[i];
    BelowTotal(names[q], names[i]);
    assert Below(names[i], names[q]);
    assert SameObject(At(d, names[q]), k);
  }

  // ---------------------------------------------------------------------------
  // What a sweep does to each file, and what it counts
  // ---------------------------------------------------------------------------

  /** How the sweep treats one entry of a prefix directory. */
  datatype Fate =
    | Ignored                // not a regular file
    | Misnamed               // a file whose name is not <hash>-<timestamp>: one more error
    | Superseded             // an older file of an object that has a newer one: unlinked
    | Processed(out: Outcome) // the newest file of its object: sent to the containers

  ghost function FateOf(files: map<UpdatePath, Entry>, k: UpdatePath, ring: Ring, respond: Responder, dev: string): Fate
    requires k in files
  {
    if !files[k].UpdateFile? then Ignored
    else if SplitUpdateName(k.name).None? then Misnamed
    else if !IsNewest(files, k) then Superseded
    else Processed(ProcessOutcome(files[k].content, ring, respond, dev, k))
  }

  /** What is left at `k` once the sweep has passed: None when the file is gone. */
  ghost function SweptEntry(files: map<UpdatePath, Entry>, k: UpdatePath, ring: Ring, respond: Responder, dev: string): Option<Entry>
    requires k in files
  {
    EntryAfter(files[k], FateOf(files, k, ring, respond, dev))
  }

  /** What becomes of entry `e` given its fate: None when it is removed. */
  function EntryAfter(e: Entry, f: Fate): (r: Option<Entry>)
    ensures r.None? <==> f == Superseded || f == Processed(Quarantined) || f == Processed(Delivered)
    ensures f == Processed(Retry(None)) || f == Ignored || f == Misnamed ==> r == Some(e)
    ensures f.Processed? && f.out.Retry? && f.out.rewrite.Some? ==> r == Some(UpdateFile(Pickled(f.out.rewrite.value)))
  {
    match f
    case Ignored => Some(e)
    case Misnamed => Some(e)
    case Superseded => None
    case Processed(Quarantined) => None
    case Processed(Delivered) => None
    case Processed(Retry(None)) => Some(e)
    case Processed(Retry(Some(u))) => Some(UpdateFile(Pickled(u)))
  }

  /** The files with the entry at `k` replaced, or removed when there is none. */
  function Leave(files: map<UpdatePath, Entry>, k: UpdatePath, r: Option<Entry>): (m: map<UpdatePath, Entry>)
    ensures m.Keys == if r.Some? then files.Keys + {k} else files.Keys - {k}
    ensures r.Some? ==> m[k] == r.value
    ensures forall j :: j in m && j != k ==> m[j] == files[j]
  {
    match r
    case None => files - {k}
    case Some(e) => files[k := e]
  }

  /**
    The fate the walk gives the entry `e` at `k` when the last object hash
    processed is `last`: it compares hashes instead of looking for newer
    files.
   */
  function WalkFate(e: Entry, k: UpdatePath, last: Option<string>, ring: Ring, respond: Responder, dev: string): Fate {
    if !e.UpdateFile? then Ignored
    else if SplitUpdateName(k.name).None? then Misnamed
    else if last == Some(HashOf(k.name)) then Superseded
    else Processed(ProcessOutcome(e.content, ring, respond, dev, k))
  }

  /** `last_obj_hash` after the walk passed an entry with this fate. */
  function NextHash(f: Fate, k: UpdatePath, last: Option<string>): Option<string> {
    if f.Processed? then Some(HashOf(k.name)) else last
  }

  /** The entries of the given directories. */
  function KeysIn(files: map<UpdatePath, Entry>, dirs: set<PrefixPath>): (ks: set<UpdatePath>)
    ensures forall k :: k in ks <==> k in files && DirOf(k) in dirs
  {
    set k | k in files && DirOf(k) in dirs
  }

  /** The files once the sweep has passed over the entries `ks`; the others are as they were. */
  ghost function SweptFiles(files: map<UpdatePath, Entry>, ks: set<UpdatePath>, ring: Ring, respond: Responder, dev: string): map<UpdatePath, Entry> {
    map k | k in files && (k !in ks || SweptEntry(files, k, ring, respond, dev).Some?) ::
      if k in ks then SweptEntry(files, k, ring, respond, dev).value else files[k]
  }

  /** The statistics the updater keeps: its two own counters and the logger's. */
  datatype Counter = Successes | Failures | Errors | Unlinks | Quarantines

  /** Whether a file with this fate adds one to the counter. */
  predicate Counts(c: Counter, f: Fate) {
    match c
    case Successes => f == Processed(Delivered)
    case Failures => f.Processed? && f.out.Retry?
    case Errors => f == Misnamed
    case Unlinks => f == Superseded || f == Processed(Delivered)
    case Quarantines => f == Processed(Quarantined)
  }

  /** The fate of every entry of `files`. */
  ghost function Fates(files: map<UpdatePath, Entry>, ring: Ring, respond: Responder, dev: string): map<UpdatePath, Fate> {
    map k | k in files :: FateOf(files, k, ring, respond, dev)
  }

  /** The entries among `ks` whose fate in `fates` adds one to counter `c`. */
  function TallyIn(fates: map<UpdatePath, Fate>, ks: set<UpdatePath>, c: Counter): set<UpdatePath> {
    set k | k in ks && k in fates && Counts(c, fates[k])
  }

  /** The entries among `ks` that the sweep adds to counter `c`. */
  ghost function Tally(files: map<UpdatePath, Entry>, ks: set<UpdatePath>, c: Counter, ring: Ring, respond: Responder, dev: string): set<UpdatePath> {
    TallyIn(Fates(files, ring, respond, dev), ks, c)
  }

  /** The base names moved to quarantine by the sweep of `ks`. */
  ghost function QuarantinedNames(files: map<UpdatePath, Entry>, ks: set<UpdatePath>, ring: Ring, respond: Responder, dev: string): set<string> {
    NamesOf(Tally(files, ks, Quarantines, ring, respond, dev))
  }

  function NamesOf(ks: set<UpdatePath>): set<string> {
    set k | k in ks :: k.name
  }

  /** Passing one more entry `k` changes the swept files at `k` alone. */
  lemma SweptStep(files: map<UpdatePath, Entry>, ks: set<UpdatePath>, k: UpdatePath, ring: Ring, respond: Responder, dev: string)
    requires k in files && k !in ks
    ensures var before := SweptFiles(files, ks, ring, respond, dev);
      SweptFiles(files, ks + {k}, ring, respond, dev) ==
        match SweptEntry(files, k, ring, respond, dev)
        case None => before - {k}
        case Some(e) => before[k := e]
  {
    var before := SweptFiles(files, ks, ring, respond, dev);
    var after := SweptFiles(files, ks + {k}, ring, respond, dev);
    assert k in before && before[k] == files[k];
    match SweptEntry(files, k, ring, respond, dev)
    case None =>
      assert after.Keys == before.Keys - {k};
    case Some(e) =>
      assert after.Keys == before.Keys;
  }

  /** One more entry adds one to the tally of counter `c` exactly when its fate counts for `c`. */
  lemma TallyInStep(fates: map<UpdatePath, Fate>, ks: set<UpdatePath>, k: UpdatePath, c: Counter)
    requires k in fates && k !in ks
    ensures |TallyIn(fates, ks + {k}, c)| == |TallyIn(fates, ks, c)| + Bump(c, fates[k])
  {
    var t := TallyIn(fates, ks, c);
    TallyInAdd(fates, ks, k, c);
    if Counts(c, fates[k]) {
      assert k !in t;
      assert |t + {k}| == |t| + 1;
    }
  }

  /** One more entry joins the tally of counter `c` exactly when its fate counts for `c`. */
  lemma TallyInAdd(fates: map<UpdatePath, Fate>, ks: set<UpdatePath>, k: UpdatePath, c: Counter)
    requires k in fates && k !in ks
    ensures TallyIn(fates, ks + {k}, c) == TallyIn(fates, ks, c) + (if Counts(c, fates[k]) then {k} else {})
  {
  }

  /** Passing one more entry adds its name to the quarantine when it was quarantined. */
  lemma QuarantinedStep(files: map<UpdatePath, Entry>, ks: set<UpdatePath>, k: UpdatePath, ring: Ring, respond: Responder, dev: string)
    requires k in files && k !in ks
    ensures QuarantinedNames(files, ks + {k}, ring, respond, dev) ==
      QuarantinedNames(files, ks, ring, respond, dev) +
        (if FateOf(files, k, ring, respond, dev) == Processed(Quarantined) then {k.name} else {})
  {
    var fates := Fates(files, ring, respond, dev);
    assert fates[k] == FateOf(files, k, ring, respond, dev);
    TallyInAdd(fates, ks, k, Quarantines);
    var added: set<UpdatePath> := if fates[k] == Processed(Quarantined) then {k} else {};
    NamesOfAdd(TallyIn(fates, ks, Quarantines), added);
    assert NamesOf(added) == if fates[k] == Processed(Quarantined) then {k.name} else {};
  }

  lemma NamesOfAdd(a: set<UpdatePath>, b: set<UpdatePath>)
    ensures NamesOf(a + b) == NamesOf(a) + NamesOf(b)
  {
  }

  /** Two file maps agree on everything inside directory `d`. */
  ghost predicate AgreeOn(f1: map<UpdatePath, Entry>, f2: map<UpdatePath, Entry>, d: PrefixPath) {
    forall j :: DirOf(j) == d ==> (j in f1 <==> j in f2) && (j in f1 ==> f1[j] == f2[j])
  }

  /** The fate of a file depends on its own directory alone. */
  lemma FateIsLocal(f1: map<UpdatePath, Entry>, f2: map<UpdatePath, Entry>, k: UpdatePath, ring: Ring, respond: Responder, dev: string)
    requires k in f1 && AgreeOn(f1, f2, DirOf(k))
    ensures k in f2
    ensures FateOf(f1, k, ring, respond, dev) == FateOf(f2, k, ring, respond, dev)
    ensures SweptEntry(f1, k, ring, respond, dev) == SweptEntry(f2, k, ring, respond, dev)
  {
    assert IsCandidate(f1, k) ==> (IsNewest(f1, k) <==> IsNewest(f2, k)) by {
      if IsCandidate(f1, k) {
        forall j | SameObject(j, k) ensures IsCandidate(f1, j) <==> IsCandidate(f2, j) {
        }
      }
    }
  }

  /** Sweeping the directories `done` leaves every other directory as it was. */
  lemma SweptKeepsOthers(files: map<UpdatePath, Entry>, done: set<PrefixPath>, d: PrefixPath, ring: Ring, respond: Responder, dev: string)
    requires d !in done
    ensures AgreeOn(files, SweptFiles(files, KeysIn(files, done), ring, respond, dev), d)
  {
  }

  /** A swept directory whose every entry the sweep removed: `os.rmdir` then succeeds. */
  ghost predicate Emptied(files: map<UpdatePath, Entry>, d: PrefixPath, ring: Ring, respond: Responder, dev: string) {
    forall k :: k in files && DirOf(k) == d ==> SweptEntry(files, k, ring, respond, dev).None?
  }

  /** A directory is left empty by its sweep exactly when the sweep removed every entry. */
  lemma EmptiedAfterSweep(files: map<UpdatePath, Entry>, d: PrefixPath, ring: Ring, respond: Responder, dev: string)
    ensures (forall k :: k in SweptFiles(files, KeysIn(files, {d}), ring, respond, dev) ==> DirOf(k) != d)
            <==> Emptied(files, d, ring, respond, dev)
  {
    var after := SweptFiles(files, KeysIn(files, {d}), ring, respond, dev);
    if !Emptied(files, d, ring, respond, dev) {
      var k :| k in files && DirOf(k) == d && SweptEntry(files, k, ring, respond, dev).Some?;
      assert k in after;
    }
  }

  /**
    Sweeping the directories `more` after the directories `done` is sweeping
    both together: the files, the tallies, the fates and the emptied
    directories compose.
   */
  lemma SweepCompose(files: map<UpdatePath, Entry>, done: set<PrefixPath>, more: set<PrefixPath>, ring: Ring, respond: Responder, dev: string)
    requires done !! more
    ensures var cur := SweptFiles(files, KeysIn(files, done), ring, respond, dev);
      && KeysIn(cur, more) == KeysIn(files, more)
      && (forall k :: k in KeysIn(files, more) ==> FateOf(cur, k, ring, respond, dev) == FateOf(files, k, ring, respond, dev))
      && (forall d :: d in more ==> (Emptied(cur, d, ring, respond, dev) <==> Emptied(files, d, ring, respond, dev)))
      && SweptFiles(cur, KeysIn(cur, more), ring, respond, dev) == SweptFiles(files, KeysIn(files, done + more), ring, respond, dev)
  {
    var cur := SweptFiles(files, KeysIn(files, done), ring, respond, dev);
    forall d | d in more ensures AgreeOn(files, cur, d) {
      SweptKeepsOthers(files, done, d, ring, respond, dev);
    }
    var km := KeysIn(files, more);
    assert KeysIn(cur, more) == km;
    forall k | k in km
      ensures FateOf(cur, k, ring, respond, dev) == FateOf(files, k, ring, respond, dev)
      ensures SweptEntry(cur, k, ring, respond, dev) == SweptEntry(files, k, ring, respond, dev)
    {
      FateIsLocal(files, cur, k, ring, respond, dev);
    }
    forall d | d in more ensures Emptied(cur, d, ring, respond, dev) <==> Emptied(files, d, ring, respond, dev) {
    }
    var lhs := SweptFiles(cur, km, ring, respond, dev);
    var rhs := SweptFiles(files, KeysIn(files, done + more), ring, respond, dev);
    assert lhs.Keys == rhs.Keys;
  }

  // ---------------------------------------------------------------------------
  // Steps of the sweep, as the updater's methods take them
  // ---------------------------------------------------------------------------

  /** What a directory entry is, to `os.path.isdir`. */
  datatype Kind = Directory | NotADirectory

  /** One when files of that fate add to the counter, otherwise none. */
  function Bump(c: Counter, f: Fate): nat {
    if Counts(c, f) then 1 else 0
  }

  /** The values of the five counters. */
  datatype Stats = Stats(successes: nat, failures: nat, errors: nat, unlinks: nat, quarantines: nat)

  /** The counters after one more entry of fate `f`. */
  function Bumped(s: Stats, f: Fate): (r: Stats)
  {
    Stats(s.successes + Bump(Successes, f), s.failures + Bump(Failures, f), s.errors + Bump(Errors, f),
          s.unlinks + Bump(Unlinks, f), s.quarantines + Bump(Quarantines, f))
  }

  /** The sum of two sets of counts. */
  function Plus(a: Stats, b: Stats): Stats {
    Stats(a.successes + b.successes, a.failures + b.failures, a.errors + b.errors,
          a.unlinks + b.unlinks, a.quarantines + b.quarantines)
  }

  lemma UnionAssoc<T>(a: set<T>, b: set<T>, c: set<T>)
    ensures (a + b) + c == a + (b + c)
  {
  }

  /** Adding the counts of one more entry commutes with adding two sets of counts. */
  lemma PlusBumped(a: Stats, b: Stats, f: Fate)
    ensures Plus(a, Bumped(b, f)) == Bumped(Plus(a, b), f)
  {
  }

  /** How many entries among `ks` add to each counter. */
  ghost function TallyStats(files: map<UpdatePath, Entry>, ks: set<UpdatePath>, ring: Ring, respond: Responder, dev: string): Stats {
    StatsIn(Fates(files, ring, respond, dev), ks)
  }

  /** How many entries among `ks` add to each counter, given their fates. */
  function StatsIn(fates: map<UpdatePath, Fate>, ks: set<UpdatePath>): Stats {
    Stats(|TallyIn(fates, ks, Successes)|, |TallyIn(fates, ks, Failures)|, |TallyIn(fates, ks, Errors)|,
          |TallyIn(fates, ks, Unlinks)|, |TallyIn(fates, ks, Quarantines)|)
  }

  /** One more entry adds its fate's counts. */
  lemma StatsInStep(fates: map<UpdatePath, Fate>, ks: set<UpdatePath>, k: UpdatePath)
    requires k in fates && k !in ks
    ensures StatsIn(fates, ks + {k}) == Bumped(StatsIn(fates, ks), fates[k])
  {
    TallyInStep(fates, ks, k, Successes);
    TallyInStep(fates, ks, k, Failures);
    TallyInStep(fates, ks, k, Errors);
    TallyInStep(fates, ks, k, Unlinks);
    TallyInStep(fates, ks, k, Quarantines);
  }

  /** Counts over disjoint sets of entries add up. */
  lemma StatsInUnion(f1: map<UpdatePath, Fate>, f2: map<UpdatePath, Fate>, a: set<UpdatePath>, b: set<UpdatePath>)
    requires a !! b
    requires forall k :: k in b ==> k in f1 && k in f2 && f1[k] == f2[k]
    ensures StatsIn(f1, a + b) == Plus(StatsIn(f1, a), StatsIn(f2, b))
  {
    TallyInUnion(f1, f2, a, b, Successes);
    TallyInUnion(f1, f2, a, b, Failures);
    TallyInUnion(f1, f2, a, b, Errors);
    TallyInUnion(f1, f2, a, b, Unlinks);
    TallyInUnion(f1, f2, a, b, Quarantines);
  }

  /** The container updates sent for a file: none when it does not unpickle, else one per target node. */
  function UpdateRequests(c: Content, dev: string, k: UpdatePath, ring: Ring, pid: nat, policy: int): (rs: seq<Request>)
    ensures c.Unreadable? ==> rs == []
    ensures c.Pickled? ==> |rs| == |Targets(ring(c.update.account, c.update.container).1, c.update.successes)|
    ensures c.Pickled? ==> forall n :: n in ring(c.update.account, c.update.container).1 && n.id !in c.update.successes ==>
      exists r :: r in rs && r.node == n
    ensures forall r :: r in rs ==>
      && c.Pickled? && r.device == dev && r.path == k
      && r.node in ring(c.update.account, c.update.container).1
      && r.node.id !in c.update.successes
      && r.partition == ring(c.update.account, c.update.container).0
      && r.op == c.update.op && r.obj == ObjPath(c.update)
      && r.headers == HeadersOut(c.update.headers, pid, policy)
  {
    match c
    case Unreadable => []
    case Pickled(u) =>
      var (part, nodes) := ring(u.account, u.container);
      TargetsMembers(nodes, u.successes);
      RequestsReachTargets(dev, k, Targets(nodes, u.successes), part, u, HeadersOut(u.headers, pid, policy));
      Requests(dev, k, Targets(nodes, u.successes), part, u, HeadersOut(u.headers, pid, policy))
  }

  /**
    `r` is one of the requests `process_object_update` sends for the file
    it names, as that file is in `files`, when called with `policy`.
   */
  predicate SentFor(r: Request, files: map<UpdatePath, Entry>, dev: string, ring: Ring, pid: nat, policy: int) {
    r.path in files && files[r.path].UpdateFile? && r in UpdateRequests(files[r.path].content, dev, r.path, ring, pid, policy)
  }

  /**
    A request sent for a file goes from that device to a ring node that had
    not taken the update, with the headers `HeadersOut` makes from the
    file's own headers and the policy: the policy-index header is
    `str(policy)` unless the file names one.
   */
  lemma SentForMeans(r: Request, files: map<UpdatePath, Entry>, dev: string, ring: Ring, pid: nat, policy: int)
    requires SentFor(r, files, dev, ring, pid, policy)
    ensures files[r.path].content.Pickled?
    ensures var u := files[r.path].content.update;
      && r.device == dev
      && r.node in ring(u.account, u.container).1 && r.node.id !in u.successes
      && r.op == u.op && r.obj == ObjPath(u)
      && r.headers == HeadersOut(u.headers, pid, policy)
  {
  }

  /** Every request of `rs` is sent for a file of `files` in one of `dirs`, under `policy`. */
  predicate SentIn(rs: seq<Request>, files: map<UpdatePath, Entry>, dev: string, ring: Ring, pid: nat, policy: int, dirs: set<PrefixPath>) {
    forall r :: r in rs ==> DirOf(r.path) in dirs && SentFor(r, files, dev, ring, pid, policy)
  }

  /** What was appended to `a` to make `c` is what was appended to make `b`, then what was appended to `b`. */
  lemma SliceJoin<T>(a: seq<T>, b: seq<T>, c: seq<T>)
    requires a <= b <= c
    ensures c[|a|..] == b[|a|..] + c[|b|..]
  {
  }

  /** Requests sent in two turns, for two groups of directories, are sent for their union. */
  lemma SentInJoin(a: seq<Request>, b: seq<Request>, c: seq<Request>, files: map<UpdatePath, Entry>, dev: string, ring: Ring,
                   pid: nat, policy: int, d1: set<PrefixPath>, d2: set<PrefixPath>)
    requires a <= b <= c
    requires SentIn(b[|a|..], files, dev, ring, pid, policy, d1) && SentIn(c[|b|..], files, dev, ring, pid, policy, d2)
    ensures SentIn(c[|a|..], files, dev, ring, pid, policy, d1 + d2)
  {
    SliceJoin(a, b, c);
  }

  /**
    After the sweep of the directories `done`, sweeping more directories
    sends requests for files of these as they were before any sweep.
   */
  lemma SentInStep(a: seq<Request>, b: seq<Request>, c: seq<Request>, files: map<UpdatePath, Entry>, done: set<PrefixPath>,
                   more: set<PrefixPath>, ring: Ring, respond: Responder, dev: string, pid: nat, policy: int)
    requires a <= b <= c && done !! more
    requires SentIn(b[|a|..], files, dev, ring, pid, policy, done)
    requires SentIn(c[|b|..], SweptFiles(files, KeysIn(files, done), ring, respond, dev), dev, ring, pid, policy, more)
    ensures SentIn(c[|a|..], files, dev, ring, pid, policy, done + more)
  {
    SentInTransfer(c[|b|..], files, done, more, ring, respond, dev, pid, policy);
    SentInJoin(a, b, c, files, dev, ring, pid, policy, done, more);
  }

  /**
    A request sent for a directory not swept yet names a file the sweep so
    far left alone, so it is also sent for that file as it was before the sweep.
   */
  lemma SentInTransfer(rs: seq<Request>, files: map<UpdatePath, Entry>, done: set<PrefixPath>, more: set<PrefixPath>,
                       ring: Ring, respond: Responder, dev: string, pid: nat, policy: int)
    requires done !! more
    requires SentIn(rs, SweptFiles(files, KeysIn(files, done), ring, respond, dev), dev, ring, pid, policy, more)
    ensures SentIn(rs, files, dev, ring, pid, policy, more)
  {
    forall r | r in rs ensures SentFor(r, files, dev, ring, pid, policy) {
      SweptKeepsOthers(files, done, DirOf(r.path), ring, respond, dev);
    }
  }

  /** The entries of directory `d` whose names are among `names`. */
  function Visited(files: map<UpdatePath, Entry>, d: PrefixPath, names: seq<string>): (ks: set<UpdatePath>)
    ensures forall k :: k in ks <==> k in files && DirOf(k) == d && k.name in names
  {
    set k | k in files && DirOf(k) == d && k.name in names
  }

  /** The async-pending directory entries after `os.rmdir` of every swept directory that was emptied. */
  ghost function Pruned(prefixes: map<PrefixPath, Kind>, swept: set<PrefixPath>, files: map<UpdatePath, Entry>, ring: Ring, respond: Responder, dev: string): map<PrefixPath, Kind> {
    map d | d in prefixes && !(d in swept && Emptied(files, d, ring, respond, dev)) :: prefixes[d]
  }

  /** Passing one more entry adds its fate's counts to the tallied counters. */
  lemma TallyStatsStep(files: map<UpdatePath, Entry>, ks: set<UpdatePath>, k: UpdatePath, ring: Ring, respond: Responder, dev: string)
    requires k in files && k !in ks
    ensures TallyStats(files, ks + {k}, ring, respond, dev) ==
      Bumped(TallyStats(files, ks, ring, respond, dev), FateOf(files, k, ring, respond, dev))
  {
    var fates := Fates(files, ring, respond, dev);
    assert fates[k] == FateOf(files, k, ring, respond, dev);
    StatsInStep(fates, ks, k);
  }

  /**
    Sweeping the directories `more` on the state the sweep of `done` left
    behind adds up, in files, quarantine, counters and removed directories,
    to sweeping `done` and `more` at once.
   */
  lemma SweepDirsCompose(files: map<UpdatePath, Entry>, prefixes: map<PrefixPath, Kind>, done: set<PrefixPath>, more: set<PrefixPath>,
                         q0: set<string>, c0: Stats, ring: Ring, respond: Responder, dev: string)
    requires done !! more
    ensures var cur := SweptFiles(files, KeysIn(files, done), ring, respond, dev);
      && SweptFiles(cur, KeysIn(cur, more), ring, respond, dev) == SweptFiles(files, KeysIn(files, done + more), ring, respond, dev)
      && (q0 + QuarantinedNames(files, KeysIn(files, done), ring, respond, dev)) + QuarantinedNames(cur, KeysIn(cur, more), ring, respond, dev)
           == q0 + QuarantinedNames(files, KeysIn(files, done + more), ring, respond, dev)
      && Plus(Plus(c0, TallyStats(files, KeysIn(files, done), ring, respond, dev)), TallyStats(cur, KeysIn(cur, more), ring, respond, dev))
           == Plus(c0, TallyStats(files, KeysIn(files, done + more), ring, respond, dev))
      && Pruned(Pruned(prefixes, done, files, ring, respond, dev), more, cur, ring, respond, dev)
           == Pruned(prefixes, done + more, files, ring, respond, dev)
  {
    var cur := SweptFiles(files, KeysIn(files, done), ring, respond, dev);
    SweepCompose(files, done, more, ring, respond, dev);
    TallyCompose(files, done, more, Quarantines, ring, respond, dev);
    NamesOfAdd(Tally(files, KeysIn(files, done), Quarantines, ring, respond, dev), Tally(cur, KeysIn(cur, more), Quarantines, ring, respond, dev));
    UnionAssoc(q0, QuarantinedNames(files, KeysIn(files, done), ring, respond, dev), QuarantinedNames(cur, KeysIn(cur, more), ring, respond, dev));
    TallyStatsCompose(files, done, more, c0, ring, respond, dev);
    PrunedCompose(files, prefixes, done, more, ring, respond, dev);
  }

  lemma TallyStatsCompose(files: map<UpdatePath, Entry>, done: set<PrefixPath>, more: set<PrefixPath>, c0: Stats, ring: Ring, respond: Responder, dev: string)
    requires done !! more
    ensures var cur := SweptFiles(files, KeysIn(files, done), ring, respond, dev);
      Plus(Plus(c0, TallyStats(files, KeysIn(files, done), ring, respond, dev)), TallyStats(cur, KeysIn(cur, more), ring, respond, dev))
        == Plus(c0, TallyStats(files, KeysIn(files, done + more), ring, respond, dev))
  {
    var cur := SweptFiles(files, KeysIn(files, done), ring, respond, dev);
    FatesCompose(files, done, more, ring, respond, dev);
    StatsInUnion(Fates(files, ring, respond, dev), Fates(cur, ring, respond, dev), KeysIn(files, done), KeysIn(cur, more));
    PlusAssoc(c0, TallyStats(files, KeysIn(files, done), ring, respond, dev), TallyStats(cur, KeysIn(cur, more), ring, respond, dev));
  }

  lemma PlusAssoc(a: Stats, b: Stats, c: Stats)
    ensures Plus(Plus(a, b), c) == Plus(a, Plus(b, c))
  {
  }

  /**
    The entries of `done + more` are those of `done` and, disjoint from them,
    those of `more` after the sweep of `done`, which have kept their fates.
   */
  lemma FatesCompose(files: map<UpdatePath, Entry>, done: set<PrefixPath>, more: set<PrefixPath>, ring: Ring, respond: Responder, dev: string)
    requires done !! more
    ensures var cur := SweptFiles(files, KeysIn(files, done), ring, respond, dev);
      var f1 := Fates(files, ring, respond, dev);
      var f2 := Fates(cur, ring, respond, dev);
      && KeysIn(files, done + more) == KeysIn(files, done) + KeysIn(cur, more)
      && KeysIn(files, done) !! KeysIn(cur, more)
      && forall k :: k in KeysIn(cur, more) ==> k in f1 && k in f2 && f1[k] == f2[k]
  {
    var cur := SweptFiles(files, KeysIn(files, done), ring, respond, dev);
    SweepCompose(files, done, more, ring, respond, dev);
    var f1 := Fates(files, ring, respond, dev);
    var f2 := Fates(cur, ring, respond, dev);
    var b := KeysIn(files, more);
    assert KeysIn(files, done + more) == KeysIn(files, done) + b;
    forall k | k in b ensures k in f1 && k in f2 && f1[k] == f2[k] {
      assert f1[k] == FateOf(files, k, ring, respond, dev);
      assert f2[k] == FateOf(cur, k, ring, respond, dev);
    }
  }

  /** The tally of counter `c` over `done` and `more` is the disjoint union of the two sweeps' tallies. */
  lemma TallyCompose(files: map<UpdatePath, Entry>, done: set<PrefixPath>, more: set<PrefixPath>, c: Counter, ring: Ring, respond: Responder, dev: string)
    requires done !! more
    ensures var cur := SweptFiles(files, KeysIn(files, done), ring, respond, dev);
      && Tally(files, KeysIn(files, done + more), c, ring, respond, dev) ==
           Tally(files, KeysIn(files, done), c, ring, respond, dev) + Tally(cur, KeysIn(cur, more), c, ring, respond, dev)
      && |Tally(files, KeysIn(files, done + more), c, ring, respond, dev)| ==
           |Tally(files, KeysIn(files, done), c, ring, respond, dev)| + |Tally(cur, KeysIn(cur, more), c, ring, respond, dev)|
  {
    var cur := SweptFiles(files, KeysIn(files, done), ring, respond, dev);
    FatesCompose(files, done, more, ring, respond, dev);
    TallyInUnion(Fates(files, ring, respond, dev), Fates(cur, ring, respond, dev), KeysIn(files, done), KeysIn(cur, more), c);
  }

  /** Tallies over disjoint sets of entries add up, when the entries of the second have the same fates in both maps. */
  lemma TallyInUnion(f1: map<UpdatePath, Fate>, f2: map<UpdatePath, Fate>, a: set<UpdatePath>, b: set<UpdatePath>, c: Counter)
    requires a !! b
    requires forall k :: k in b ==> k in f1 && k in f2 && f1[k] == f2[k]
    ensures TallyIn(f1, a + b, c) == TallyIn(f1, a, c) + TallyIn(f2, b, c)
    ensures |TallyIn(f1, a + b, c)| == |TallyIn(f1, a, c)| + |TallyIn(f2, b, c)|
  {
    assert TallyIn(f1, a + b, c) == TallyIn(f1, a, c) + TallyIn(f2, b, c);
    assert TallyIn(f1, a, c) !! TallyIn(f2, b, c);
  }

  lemma PrunedCompose(files: map<UpdatePath, Entry>, prefixes: map<PrefixPath, Kind>, done: set<PrefixPath>, more: set<PrefixPath>, ring: Ring, respond: Responder, dev: string)
    requires done !! more
    ensures var cur := SweptFiles(files, KeysIn(files, done), ring, respond, dev);
      Pruned(Pruned(prefixes, done, files, ring, respond, dev), more, cur, ring, respond, dev)
        == Pruned(prefixes, done + more, files, ring, respond, dev)
  {
    var cur := SweptFiles(files, KeysIn(files, done), ring, respond, dev);
    SweepCompose(files, done, more, ring, respond, dev);
    var p1 := Pruned(Pruned(prefixes, done, files, ring, respond, dev), more, cur, ring, respond, dev);
    var p2 := Pruned(prefixes, done + more, files, ring, respond, dev);
    assert p1.Keys == p2.Keys;
  }

  /**
    The rmdir after one prefix directory: it goes exactly when its sweep
    left nothing in it.
   */
  lemma PrunedOne(prefixes: map<PrefixPath, Kind>, d: PrefixPath, files: map<UpdatePath, Entry>, ring: Ring, respond: Responder, dev: string)
    requires d in prefixes
    ensures var after := SweptFiles(files, KeysIn(files, {d}), ring, respond, dev);
      Pruned(prefixes, {d}, files, ring, respond, dev) ==
        if forall k :: k in after ==> DirOf(k) != d then prefixes - {d} else prefixes
  {
    EmptiedAfterSweep(files, d, ring, respond, dev);
    var p := Pruned(prefixes, {d}, files, ring, respond, dev);
    if Emptied(files, d, ring, respond, dev) {
      assert p.Keys == prefixes.Keys - {d};
    } else {
      assert p.Keys == prefixes.Keys;
    }
  }

  /** A sweep that skips directory `d` keeps it, and passing no directory changes nothing. */
  lemma PrunedNone(prefixes: map<PrefixPath, Kind>, files: map<UpdatePath, Entry>, ring: Ring, respond: Responder, dev: string)
    ensures Pruned(prefixes, {}, files, ring, respond, dev) == prefixes
    ensures SweptFiles(files, KeysIn(files, {}), ring, respond, dev) == files
    ensures QuarantinedNames(files, KeysIn(files, {}), ring, respond, dev) == {}
    ensures TallyStats(files, KeysIn(files, {}), ring, respond, dev) == Stats(0, 0, 0, 0, 0)
  {
    assert KeysIn(files, {}) == {};
    assert Tally(files, {}, Successes, ring, respond, dev) == {};
    assert Tally(files, {}, Failures, ring, respond, dev) == {};
    assert Tally(files, {}, Errors, ring, respond, dev) == {};
    assert Tally(files, {}, Unlinks, ring, respond, dev) == {};
    assert Tally(files, {}, Quarantines, ring, respond, dev) == {};
  }

  /** The names the walk goes through: the sorted listing of directory `d`, and nothing else. */
  predicate IsListing(files: map<UpdatePath, Entry>, d: PrefixPath, names: seq<string>) {
    IsSortedListing(files, d, names) && forall n :: n in names ==> At(d, n) in files
  }

  /**
    One step of the walk agrees with the sweep's specification: the fate the
    walk computes from `last_obj_hash` is the entry's fate, and the swept
    files, the tallies and `last_obj_hash` move on by exactly that entry.
   */
  lemma WalkStep(files: map<UpdatePath, Entry>, d: PrefixPath, names: seq<string>, i: nat, ring: Ring, respond: Responder, dev: string)
    requires IsListing(files, d, names) && i < |names|
    ensures var k := At(d, names[i]);
      var done := Visited(files, d, names[..i]);
      var next := Visited(files, d, names[..i + 1]);
      var last := LastHash(files, d, names[..i]);
      && k in files && k !in done && next == done + {k}
      && k in SweptFiles(files, done, ring, respond, dev) && SweptFiles(files, done, ring, respond, dev)[k] == files[k]
      && WalkFate(files[k], k, last, ring, respond, dev) == FateOf(files, k, ring, respond, dev)
      && NextHash(FateOf(files, k, ring, respond, dev), k, last) == LastHash(files, d, names[..i + 1])
      && SweptFiles(files, next, ring, respond, dev) ==
           Leave(SweptFiles(files, done, ring, respond, dev), k, SweptEntry(files, k, ring, respond, dev))
      && TallyStats(files, next, ring, respond, dev) ==
           Bumped(TallyStats(files, done, ring, respond, dev), FateOf(files, k, ring, respond, dev))
      && QuarantinedNames(files, next, ring, respond, dev) ==
           QuarantinedNames(files, done, ring, respond, dev) +
             (if FateOf(files, k, ring, respond, dev) == Processed(Quarantined) then {k.name} else {})
  {
    var k := At(d, names[i]);
    var done := Visited(files, d, names[..i]);
    assert names[i] in names;
    assert names[i] !in names[..i];
    assert names[..i + 1] == names[..i] + [names[i]];
    assert Visited(files, d, names[..i + 1]) == done + {k};
    assert names[..i + 1][..i] == names[..i];
    SweptStep(files, done, k, ring, respond, dev);
    QuarantinedStep(files, done, k, ring, respond, dev);
    TallyStatsStep(files, done, k, ring, respond, dev);
    if IsCandidate(files, k) {
      NewestIffNewHash(files, d, names, i);
    }
  }

  /** At the end of the walk every entry of the directory was visited. */
  lemma VisitedAll(files: map<UpdatePath, Entry>, d: PrefixPath, names: seq<string>)
    requires IsListing(files, d, names)
    ensures Visited(files, d, names[..|names|]) == KeysIn(files, {d})
  {
    assert names[..|names|] == names;
  }

  /** `sorted(os.listdir(d), reverse=True)` is a listing of `d` the walk can take. */
  lemma ListingSorted(files: map<UpdatePath, Entry>, d: PrefixPath, listing: seq<string>, names: seq<string>)
    requires Distinct(listing) && (forall n :: n in listing <==> n in set k | k in files && DirOf(k) == d :: k.name)
    requires Descending(names) && multiset(names) == multiset(listing)
    ensures IsListing(files, d, names)
  {
    DistinctPermutation(listing, names);
    forall n ensures n in names <==> n in listing {
      assert n in names <==> n in multiset(names);
      assert n in listing <==> n in multiset(listing);
    }
    forall n | n in names ensures At(d, n) in files {
      var j :| j in files && DirOf(j) == d && j.name == n;
      assert j == At(d, n);
    }
  }
}
