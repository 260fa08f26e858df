/**
  The object updater daemon of swift/obj/updater.py, one pass (`run_once`):
  for every device it walks the async-pending directories, sends each
  pending container update to the container nodes that have not taken it
  yet, and deletes, keeps or rewrites the file accordingly, counting
  successes and failures.

  The file system of a device, the container ring and the container
  servers' answers are inputs: a `Device` object holds the entries the
  sweep lists and changes, the ring is a function, and a `Responder` says
  how each container node answers each update.
 */
module Updater {
  import opened Wrappers
  import opened PyStr
  import opened AsyncPending

  /** What `run_once` can see of a device at one moment. */
  datatype DeviceState = DeviceState(
    name: string,
    mounted: bool,
    top: map<string, Kind>,
    prefixes: map<PrefixPath, Kind>,
    files: map<UpdatePath, Entry>,
    quarantined: set<string>)

  /** A device under the devices directory, with the part of its file system the updater uses. */
  class Device {
    const name: string
    /** What `ismount` says of the device path. */
    const mounted: bool
    /** The entries directly under the device, by name. */
    var top: map<string, Kind>
    /** The entries of its directories `<asyncdir>/<prefix>`. */
    var prefixes: map<PrefixPath, Kind>
    /** The entries of the prefix directories. */
    var files: map<UpdatePath, Entry>
    /** The names of the files under `quarantined/objects`. */
    var quarantined: set<string>

    constructor (name: string, mounted: bool, top: map<string, Kind>, prefixes: map<PrefixPath, Kind>, files: map<UpdatePath, Entry>)
      ensures State() == DeviceState(name, mounted, top, prefixes, files, {})
    {
      this.name := name;
      this.mounted := mounted;
      this.top := top;
      this.prefixes := prefixes;
      this.files := files;
      this.quarantined := {};
    }

    function State(): DeviceState
      reads this
    {
      DeviceState(name, mounted, top, prefixes, files, quarantined)
    }
  }

  /** `os.listdir`: every entry once, in an order the model leaves open. */
  method ListDir<T>(entries: set<T>) returns (listing: seq<T>)
    ensures Distinct(listing)
    ensures forall x :: x in listing <==> x in entries
    ensures |listing| == |entries|
  {
    listing := [];
    var left := entries;
    while left != {}
      invariant left <= entries
      invariant forall x :: x in listing <==> x in entries && x !in left
      invariant Distinct(listing)
      invariant |listing| + |left| == |entries|
      decreases |left|
    {
      var x :| x in left;
      listing := listing + [x];
      left := left - {x};
    }
  }

  /** `sorted(os.listdir(prefix_path), reverse=True)`: the names of the entries of `d`, greatest first, each once. */
  method SortedListing(files: map<UpdatePath, Entry>, d: PrefixPath) returns (names: seq<string>)
    ensures IsListing(files, d, names)
  {
    var listing := ListDir(set k | k in files && DirOf(k) == d :: k.name);
    names := SortDesc(listing);
    ListingSorted(files, d, listing, names);
  }

  /** The directories `object_sweep` sweeps: directory prefixes of async-pending directories of valid policies. */
  function SweepDirs(top: map<string, Kind>, prefixes: map<PrefixPath, Kind>, validPolicy: int -> bool): (dirs: set<PrefixPath>)
    ensures forall d :: d in dirs <==>
      && d in prefixes && prefixes[d] == Directory
      && d.asyncdir in top && top[d.asyncdir] == Directory
      && AsyncDirPolicy(d.asyncdir, validPolicy).Policy?
  {
    set d | d in prefixes && prefixes[d] == Directory && d.asyncdir in top && top[d.asyncdir] == Directory
                          && AsyncDirPolicy(d.asyncdir, validPolicy).Policy?
  }

  /** The prefix directories of one async-pending directory. */
  function PrefixDirsOf(prefixes: map<PrefixPath, Kind>, asyncdir: string): (dirs: set<PrefixPath>)
    ensures forall d :: d in dirs <==> d in prefixes && prefixes[d] == Directory && d.asyncdir == asyncdir
  {
    set d | d in prefixes && prefixes[d] == Directory && d.asyncdir == asyncdir
  }

  /** The directories of `SweepDirs` under the async-pending directories named in `names`. */
  ghost function SweptAmong(top: map<string, Kind>, prefixes: map<PrefixPath, Kind>, validPolicy: int -> bool, names: seq<string>): set<PrefixPath> {
    set d | d in SweepDirs(top, prefixes, validPolicy) && d.asyncdir in names
  }

  /**
    Visiting the next name at the top of the device adds the prefix
    directories of that async-pending directory, which the sweep so far left
    untouched, when it is one `object_sweep` walks.
   */
  lemma SweptAmongStep(top: map<string, Kind>, prefixes: map<PrefixPath, Kind>, validPolicy: int -> bool, names: seq<string>, j: nat,
                       files: map<UpdatePath, Entry>, ring: Ring, respond: Responder, dev: string)
    requires Distinct(names) && j < |names| && names[j] in top
    ensures var a := names[j];
      var done := SweptAmong(top, prefixes, validPolicy, names[..j]);
      && PrefixDirsOf(prefixes, a) !! done
      && PrefixDirsOf(Pruned(prefixes, done, files, ring, respond, dev), a) == PrefixDirsOf(prefixes, a)
      && SweptAmong(top, prefixes, validPolicy, names[..j + 1]) ==
           done + (if top[a] == Directory && AsyncDirPolicy(a, validPolicy).Policy? then PrefixDirsOf(prefixes, a) else {})
  {
    var a := names[j];
    assert a !in names[..j];
    assert names[..j + 1] == names[..j] + [a];
  }

  /** Once every name at the top of the device was visited, every directory of `SweepDirs` is swept. */
  lemma SweptAmongAll(top: map<string, Kind>, prefixes: map<PrefixPath, Kind>, validPolicy: int -> bool, names: seq<string>)
    requires forall a :: a in top ==> a in names
    ensures SweptAmong(top, prefixes, validPolicy, names[..|names|]) == SweepDirs(top, prefixes, validPolicy)
  {
    assert names[..|names|] == names;
  }

  /** The directories among `prefixes` of `asyncdir` whose names are among `names`. */
  ghost function ListedDirs(prefixes: map<PrefixPath, Kind>, asyncdir: string, names: seq<string>): set<PrefixPath> {
    set d | d in PrefixDirsOf(prefixes, asyncdir) && d.prefix in names
  }

  /** The names `os.listdir` gives for the async-pending directory `asyncdir`. */
  ghost predicate PrefixListing(prefixes: map<PrefixPath, Kind>, asyncdir: string, listing: seq<string>) {
    Distinct(listing) && forall x :: x in listing <==> x in set d | d in prefixes && d.asyncdir == asyncdir :: d.prefix
  }

  /** Visiting the next name of the listing: it names a fresh entry of `prefixes`. */
  lemma ListedStep(prefixes: map<PrefixPath, Kind>, asyncdir: string, listing: seq<string>, j: nat)
    requires PrefixListing(prefixes, asyncdir, listing) && j < |listing|
    ensures var d := PrefixPath(asyncdir, listing[j]);
      && d in prefixes && d !in ListedDirs(prefixes, asyncdir, listing[..j])
      && ListedDirs(prefixes, asyncdir, listing[..j + 1]) ==
           ListedDirs(prefixes, asyncdir, listing[..j]) + (if prefixes[d] == Directory then {d} else {})
  {
    var d := PrefixPath(asyncdir, listing[j]);
    assert listing[j] in listing;
    var e :| e in prefixes && e.asyncdir == asyncdir && e.prefix == listing[j];
    assert e == d;
    assert listing[j] !in listing[..j];
    assert listing[..j + 1] == listing[..j] + [listing[j]];
  }

  /** The whole listing names every directory of `asyncdir`. */
  lemma ListedAll(prefixes: map<PrefixPath, Kind>, asyncdir: string, listing: seq<string>)
    requires PrefixListing(prefixes, asyncdir, listing)
    ensures ListedDirs(prefixes, asyncdir, listing[..|listing|]) == PrefixDirsOf(prefixes, asyncdir)
  {
    assert listing[..|listing|] == listing;
    forall d | d in PrefixDirsOf(prefixes, asyncdir) ensures d.prefix in listing {
      assert d.prefix in set e | e in prefixes && e.asyncdir == asyncdir :: e.prefix;
    }
  }

  /**
    `r` is a request `object_sweep` sends for a file of `files` in one of
    `dirs`, with the policy of the file's async-pending directory.
   */
  predicate SweepSent(r: Request, files: map<UpdatePath, Entry>, dev: string, ring: Ring, pid: nat, validPolicy: int -> bool,
                      dirs: set<PrefixPath>) {
    && DirOf(r.path) in dirs
    && AsyncDirPolicy(r.path.asyncdir, validPolicy).Policy?
    && SentFor(r, files, dev, ring, pid, AsyncDirPolicy(r.path.asyncdir, validPolicy).index)
  }

  /** Every request of `rs` is one `object_sweep` sends for a file of `files` in one of `dirs`. */
  predicate SentInSweep(rs: seq<Request>, files: map<UpdatePath, Entry>, dev: string, ring: Ring, pid: nat, validPolicy: int -> bool,
                        dirs: set<PrefixPath>) {
    forall r :: r in rs ==> SweepSent(r, files, dev, ring, pid, validPolicy, dirs)
  }

  /**
    After the sweep of the directories `done`, sweeping those of one more
    async-pending directory with its own policy sends requests for them.
   */
  lemma SentInSweepStep(a: seq<Request>, b: seq<Request>, c: seq<Request>, files: map<UpdatePath, Entry>, done: set<PrefixPath>,
                        more: set<PrefixPath>, asyncdir: string, policy: int,
                        ring: Ring, respond: Responder, dev: string, pid: nat, validPolicy: int -> bool)
    requires a <= b <= c && done !! more
    requires forall d :: d in more ==> d.asyncdir == asyncdir
    requires AsyncDirPolicy(asyncdir, validPolicy) == Policy(policy)
    requires SentInSweep(b[|a|..], files, dev, ring, pid, validPolicy, done)
    requires SentIn(c[|b|..], SweptFiles(files, KeysIn(files, done), ring, respond, dev), dev, ring, pid, policy, more)
    ensures SentInSweep(c[|a|..], files, dev, ring, pid, validPolicy, done + more)
  {
    SentInTransfer(c[|b|..], files, done, more, ring, respond, dev, pid, policy);
    SliceJoin(a, b, c);
  }

  /** `r` is a request the sweep of the device in state `s` sends, the device not being skipped. */
  predicate SentByDevice(r: Request, s: DeviceState, mountCheck: bool, ring: Ring, pid: nat, validPolicy: int -> bool) {
    !Skipped(s, mountCheck) && SweepSent(r, s.files, s.name, ring, pid, validPolicy, SweepDirs(s.top, s.prefixes, validPolicy))
  }

  /** Every request of `rs` is one the sweep of some device of `states` sends. */
  predicate SentInRun(rs: seq<Request>, states: seq<DeviceState>, mountCheck: bool, ring: Ring, pid: nat, validPolicy: int -> bool) {
    forall r :: r in rs ==> exists j :: 0 <= j < |states| && SentByDevice(r, states[j], mountCheck, ring, pid, validPolicy)
  }

  /** The device loop of `run_once` adds the requests of device `i`: none when it is skipped, else its sweep's. */
  lemma SentInRunStep(a: seq<Request>, b: seq<Request>, c: seq<Request>, states: seq<DeviceState>, i: nat,
                      mountCheck: bool, ring: Ring, pid: nat, validPolicy: int -> bool)
    requires a <= b <= c && i < |states|
    requires SentInRun(b[|a|..], states, mountCheck, ring, pid, validPolicy)
    requires if Skipped(states[i], mountCheck) then c == b
             else SentInSweep(c[|b|..], states[i].files, states[i].name, ring, pid, validPolicy,
                              SweepDirs(states[i].top, states[i].prefixes, validPolicy))
    ensures SentInRun(c[|a|..], states, mountCheck, ring, pid, validPolicy)
  {
    SliceJoin(a, b, c);
    forall r | r in c[|b|..]
      ensures exists j :: 0 <= j < |states| && SentByDevice(r, states[j], mountCheck, ring, pid, validPolicy)
    {
      assert SentByDevice(r, states[i], mountCheck, ring, pid, validPolicy);
    }
  }

  /** A device after `object_sweep`: its swept files, quarantine and pruned prefix directories. */
  ghost function AfterSweep(s: DeviceState, validPolicy: int -> bool, ring: Ring, respond: Responder): DeviceState {
    var ds := SweepDirs(s.top, s.prefixes, validPolicy);
    var ks := KeysIn(s.files, ds);
    s.(prefixes := Pruned(s.prefixes, ds, s.files, ring, respond, s.name),
       files := SweptFiles(s.files, ks, ring, respond, s.name),
       quarantined := s.quarantined + QuarantinedNames(s.files, ks, ring, respond, s.name))
  }

  /** Whether `run_once` skips the device: mount checking is on and it is not mounted. */
  predicate Skipped(s: DeviceState, mountCheck: bool) {
    mountCheck && !s.mounted
  }

  /** A device after `run_once`: skipped, or swept. */
  ghost function AfterRun(s: DeviceState, mountCheck: bool, validPolicy: int -> bool, ring: Ring, respond: Responder): DeviceState {
    if Skipped(s, mountCheck) then s else AfterSweep(s, validPolicy, ring, respond)
  }

  /** What one device adds to the counters in `run_once`: an error when skipped, else its sweep's tally. */
  ghost function DeviceStats(s: DeviceState, mountCheck: bool, validPolicy: int -> bool, ring: Ring, respond: Responder): Stats {
    if Skipped(s, mountCheck) then Stats(0, 0, 1, 0, 0)
    else TallyStats(s.files, KeysIn(s.files, SweepDirs(s.top, s.prefixes, validPolicy)), ring, respond, s.name)
  }

  /** What the devices `states`, in listing order, add to the counters. */
  ghost function RunStats(states: seq<DeviceState>, mountCheck: bool, validPolicy: int -> bool, ring: Ring, respond: Responder): Stats
  {
    if states == [] then Stats(0, 0, 0, 0, 0)
    else Plus(RunStats(states[..|states| - 1], mountCheck, validPolicy, ring, respond),
              DeviceStats(states[|states| - 1], mountCheck, validPolicy, ring, respond))
  }

  /** One more device adds its own counts to the run's. */
  lemma RunStatsStep(states: seq<DeviceState>, i: nat, base: Stats, mountCheck: bool, validPolicy: int -> bool, ring: Ring, respond: Responder)
    requires i < |states|
    ensures Plus(Plus(base, RunStats(states[..i], mountCheck, validPolicy, ring, respond)), DeviceStats(states[i], mountCheck, validPolicy, ring, respond))
      == Plus(base, RunStats(states[..i + 1], mountCheck, validPolicy, ring, respond))
  {
    assert states[..i + 1][..i] == states[..i];
  }

  /** The states of the devices, in order. */
  function States(devs: seq<Device>): (r: seq<DeviceState>)
    reads set d | d in devs
    ensures |r| == |devs| && forall i :: 0 <= i < |devs| ==> r[i] == devs[i].State()
  {
    if devs == [] then [] else States(devs[..|devs| - 1]) + [devs[|devs| - 1].State()]
  }

  /** The object updater, with its counters and the container updates it has sent. */
  class ObjectUpdater {
    const mountCheck: bool
    /** `os.getpid()`, which goes into the user-agent header. */
    const pid: nat
    const ring: Ring
    /** The storage policies `get_async_dir` accepts. */
    const validPolicy: int -> bool

    var successes: nat
    var failures: nat
    /** The logger's `errors`, `unlinks` and `quarantines` statistics. */
    var errors: nat
    var unlinks: nat
    var quarantines: nat
    /** Every container update sent, in order. */
    var sent: seq<Request>

    constructor (mountCheck: bool, pid: nat, ring: Ring, validPolicy: int -> bool)
      ensures this.mountCheck == mountCheck && this.pid == pid && this.ring == ring && this.validPolicy == validPolicy
      ensures successes == 0 && failures == 0 && errors == 0 && unlinks == 0 && quarantines == 0 && sent == []
    {
      this.mountCheck := mountCheck;
      this.pid := pid;
      this.ring := ring;
      this.validPolicy := validPolicy;
      successes, failures, errors, unlinks, quarantines := 0, 0, 0, 0, 0;
      sent := [];
    }

    /** The values of the counters. */
    function Counters(): Stats
      reads this
    {
      Stats(successes, failures, errors, unlinks, quarantines)
    }

    /**
      `process_object_update`: quarantine a file that does not unpickle;
      otherwise send the update to every container node not among its stored
      successes, and delete the file when all of them took it, else count a
      failure and rewrite the file when some of them took it.
     */
    method ProcessObjectUpdate(dev: Device, k: UpdatePath, policy: int, respond: Responder) returns (ghost out: Outcome)
      requires k in dev.files && dev.files[k].UpdateFile?
      modifies this, dev`files, dev`quarantined
      ensures out == ProcessOutcome(old(dev.files[k].content), ring, respond, dev.name, k)
      ensures dev.files == Leave(old(dev.files), k, EntryAfter(old(dev.files[k]), Processed(out)))
      ensures dev.quarantined == old(dev.quarantined) + (if out == Quarantined then {k.name} else {})
      ensures Counters() == Bumped(old(Counters()), Processed(out))
      ensures sent == old(sent) + UpdateRequests(old(dev.files[k].content), dev.name, k, ring, pid, policy)
    {
      match dev.files[k].content
      case Unreadable =>
        quarantines := quarantines + 1;
        dev.quarantined := dev.quarantined + {k.name};
        dev.files := dev.files - {k};
        out := Quarantined;
      case Pickled(update) =>
        out := SendUpdate(dev, k, update, policy, respond);
    }

    /** `process_object_update` for a file that unpickles to `update`. */
    method SendUpdate(dev: Device, k: UpdatePath, update: Update, policy: int, respond: Responder) returns (ghost out: Outcome)
      requires k in dev.files && dev.files[k] == UpdateFile(Pickled(update))
      modifies this, dev`files
      ensures out == ProcessOutcome(Pickled(update), ring, respond, dev.name, k)
      ensures dev.files == Leave(old(dev.files), k, EntryAfter(old(dev.files[k]), Processed(out)))
      ensures Counters() == Bumped(old(Counters()), Processed(out))
      ensures sent == old(sent) + UpdateRequests(Pickled(update), dev.name, k, ring, pid, policy)
    {
      var (part, nodes) := ring(update.account, update.container);
      var headersOut := HeadersOut(update.headers, pid, policy);
      var events := Targets(nodes, update.successes);
      sent := sent + Requests(dev.name, k, events, part, update, headersOut);
      var success, newSuccesses, acked := AwaitEvents(dev.name, k, events, update.successes, respond);
      out := Conclude(dev, k, update, success, newSuccesses, acked);
    }

    /**
      The end of `process_object_update` once every event returned: unlink
      the file and count a success when all targets took the update; else
      count a failure and rewrite the file with the enlarged stored successes
      when some did.
     */
    method Conclude(dev: Device, k: UpdatePath, update: Update, success: bool, newSuccesses: bool, acked: seq<int>)
      returns (ghost out: Outcome)
      requires k in dev.files && dev.files[k] == UpdateFile(Pickled(update))
      modifies this, dev`files
      ensures out == if success then Delivered else Retry(if newSuccesses then Some(update.(successes := acked)) else None)
      ensures dev.files == Leave(old(dev.files), k, EntryAfter(UpdateFile(Pickled(update)), Processed(out)))
      ensures Counters() == Bumped(old(Counters()), Processed(out))
      ensures sent == old(sent)
    {
      if success {
        successes := successes + 1;
        unlinks := unlinks + 1;
        dev.files := dev.files - {k};
        out := Delivered;
      } else {
        failures := failures + 1;
        if newSuccesses {
          dev.files := dev.files[k := UpdateFile(Pickled(update.(successes := acked)))];
          out := Retry(Some(update.(successes := acked)));
        } else {
          out := Retry(None);
        }
      }
    }

    /**
      The loop over the spawned `object_update` events: waits for each in
      turn, appending the id of every node that took the update to the stored
      successes.
     */
    method AwaitEvents(dev: string, k: UpdatePath, events: seq<Node>, stored: seq<int>, respond: Responder)
      returns (success: bool, newSuccesses: bool, acked: seq<int>)
      ensures success == AllAcked(events, respond, dev, k)
      ensures newSuccesses == AnyAcked(events, respond, dev, k)
      ensures acked == stored + NewlyAcked(events, respond, dev, k)
    {
      acked := stored;
      success := true;
      newSuccesses := false;
      for i := 0 to |events|
        invariant acked == stored + NewlyAcked(events[..i], respond, dev, k)
        invariant success == AllAcked(events[..i], respond, dev, k)
        invariant newSuccesses == AnyAcked(events[..i], respond, dev, k)
      {
        var eventSuccess := ObjectUpdate(respond(dev, k, events[i]));
        assert events[..i + 1][..i] == events[..i];
        if eventSuccess == Verdict(true) {
          acked := acked + [events[i].id];
          newSuccesses := true;
        } else {
          success := false;
        }
      }
      assert events[..|events|] == events;
    }
  
    /**
      One entry of the walk over a prefix directory: skip it unless it is a
      regular file; count an error when its name does not split into hash and
      timestamp; unlink it when its hash is `last` (`last_obj_hash`); otherwise
      process it. Returns the new `last_obj_hash`.
     */
    method VisitEntry(dev: Device, k: UpdatePath, last: Option<string>, policy: int, respond: Responder)
      returns (next: Option<string>, ghost f: Fate)
      modifies this, dev`files, dev`quarantined
      ensures k !in old(dev.files) ==>
        && dev.files == old(dev.files) && dev.quarantined == old(dev.quarantined)
        && Counters() == old(Counters()) && sent == old(sent) && next == last
      ensures k in old(dev.files) ==>
        && f == WalkFate(old(dev.files[k]), k, last, ring, respond, dev.name)
        && dev.files == Leave(old(dev.files), k, EntryAfter(old(dev.files[k]), f))
        && dev.quarantined == old(dev.quarantined) + (if f == Processed(Quarantined) then {k.name} else {})
        && Counters() == Bumped(old(Counters()), f)
        && next == NextHash(f, k, last)
        && sent == old(sent) + (if f.Processed? then UpdateRequests(old(dev.files[k]).content, dev.name, k, ring, pid, policy) else [])
    {
      next := last;
      f := Ignored;
      if k in dev.files && dev.files[k].UpdateFile? {
        match SplitUpdateName(k.name)
        case None =>
          errors := errors + 1;
          f := Misnamed;
        case Some((objHash, _)) =>
          if Some(objHash) == last {
            unlinks := unlinks + 1;
            dev.files := dev.files - {k};
            f := Superseded;
          } else {
            var out := ProcessObjectUpdate(dev, k, policy, respond);
            next := Some(objHash);
            f := Processed(out);
          }
      }
    }

    /**
      The walk over one prefix directory in `object_sweep`: names greatest
      first, each visited once. Across the directory this processes exactly
      the newest file of each object (NewestIffNewHash).
     */
    method SweepPrefix(dev: Device, d: PrefixPath, policy: int, respond: Responder)
      modifies this, dev`files, dev`quarantined
      ensures var ks := KeysIn(old(dev.files), {d});
        && dev.files == SweptFiles(old(dev.files), ks, ring, respond, dev.name)
        && dev.quarantined == old(dev.quarantined) + QuarantinedNames(old(dev.files), ks, ring, respond, dev.name)
        && Counters() == Plus(old(Counters()), TallyStats(old(dev.files), ks, ring, respond, dev.name))
        && old(sent) <= sent && SentIn(sent[|old(sent)|..], old(dev.files), dev.name, ring, pid, policy, {d})
    {
      ghost var orig, q0, c0 := dev.files, dev.quarantined, Counters();
      var names := SortedListing(dev.files, d);
      var lastObjHash: Option<string> := None;
      PrunedNone(map[], orig, ring, respond, dev.name);
      assert Visited(orig, d, names[..0]) == KeysIn(orig, {});
      for i := 0 to |names|
        invariant lastObjHash == LastHash(orig, d, names[..i])
        invariant dev.files == SweptFiles(orig, Visited(orig, d, names[..i]), ring, respond, dev.name)
        invariant dev.quarantined == q0 + QuarantinedNames(orig, Visited(orig, d, names[..i]), ring, respond, dev.name)
        invariant Counters() == Plus(c0, TallyStats(orig, Visited(orig, d, names[..i]), ring, respond, dev.name))
        invariant old(sent) <= sent && SentIn(sent[|old(sent)|..], orig, dev.name, ring, pid, policy, {d})
      {
        lastObjHash := WalkName(dev, d, names, i, lastObjHash, policy, respond, orig, q0, c0, old(sent));
      }
      VisitedAll(orig, d, names);
    }

    /**
      One pass of the walk over a prefix directory: `names[i]` is visited,
      and the state moves from what the walk over `names[..i]` leaves to what
      the walk over `names[..i + 1]` leaves.
     */
    method WalkName(dev: Device, d: PrefixPath, names: seq<string>, i: nat, last: Option<string>, policy: int, respond: Responder,
                    ghost orig: map<UpdatePath, Entry>, ghost q0: set<string>, ghost c0: Stats, ghost s0: seq<Request>)
      returns (next: Option<string>)
      requires IsListing(orig, d, names) && i < |names|
      requires last == LastHash(orig, d, names[..i])
      requires dev.files == SweptFiles(orig, Visited(orig, d, names[..i]), ring, respond, dev.name)
      requires dev.quarantined == q0 + QuarantinedNames(orig, Visited(orig, d, names[..i]), ring, respond, dev.name)
      requires Counters() == Plus(c0, TallyStats(orig, Visited(orig, d, names[..i]), ring, respond, dev.name))
      requires s0 <= sent && SentIn(sent[|s0|..], orig, dev.name, ring, pid, policy, {d})
      modifies this, dev`files, dev`quarantined
      ensures next == LastHash(orig, d, names[..i + 1])
      ensures dev.files == SweptFiles(orig, Visited(orig, d, names[..i + 1]), ring, respond, dev.name)
      ensures dev.quarantined == q0 + QuarantinedNames(orig, Visited(orig, d, names[..i + 1]), ring, respond, dev.name)
      ensures Counters() == Plus(c0, TallyStats(orig, Visited(orig, d, names[..i + 1]), ring, respond, dev.name))
      ensures s0 <= sent && SentIn(sent[|s0|..], orig, dev.name, ring, pid, policy, {d})
    {
      var k := At(d, names[i]);
      ghost var done := Visited(orig, d, names[..i]);
      WalkStep(orig, d, names, i, ring, respond, dev.name);
      ghost var f;
      next, f := VisitEntry(dev, k, last, policy, respond);
      assert sent[|old(sent)|..] == if f.Processed? then UpdateRequests(orig[k].content, dev.name, k, ring, pid, policy) else [];
      SentInJoin(s0, old(sent), sent, orig, dev.name, ring, pid, policy, {d}, {d});
      assert {d} + {d} == {d};
      UnionAssoc(q0, QuarantinedNames(orig, done, ring, respond, dev.name),
        if f == Processed(Quarantined) then {k.name} else {});
      PlusBumped(c0, TallyStats(orig, done, ring, respond, dev.name), f);
    }

    /** One prefix directory: its walk, then `os.rmdir`, which succeeds only on an empty directory. */
    method SweepPrefixDir(dev: Device, d: PrefixPath, policy: int, respond: Responder)
      requires d in dev.prefixes
      modifies this, dev`files, dev`quarantined, dev`prefixes
      ensures var ks := KeysIn(old(dev.files), {d});
        && dev.files == SweptFiles(old(dev.files), ks, ring, respond, dev.name)
        && dev.quarantined == old(dev.quarantined) + QuarantinedNames(old(dev.files), ks, ring, respond, dev.name)
        && Counters() == Plus(old(Counters()), TallyStats(old(dev.files), ks, ring, respond, dev.name))
        && dev.prefixes == Pruned(old(dev.prefixes), {d}, old(dev.files), ring, respond, dev.name)
        && old(sent) <= sent && SentIn(sent[|old(sent)|..], old(dev.files), dev.name, ring, pid, policy, {d})
    {
      PrunedOne(dev.prefixes, d, dev.files, ring, respond, dev.name);
      SweepPrefix(dev, d, policy, respond);
      if forall k :: k in dev.files ==> DirOf(k) != d {
        dev.prefixes := dev.prefixes - {d};
      }
    }

    /**
      The loop over the prefix directories of one async-pending directory in
      `object_sweep`: every entry that is a directory is swept, then removed
      when the sweep left it empty (otherwise `os.rmdir` fails and the error
      is ignored).
     */
    method SweepAsyncDir(dev: Device, asyncdir: string, policy: int, respond: Responder)
      modifies this, dev`files, dev`quarantined, dev`prefixes
      ensures var ds := PrefixDirsOf(old(dev.prefixes), asyncdir);
        var ks := KeysIn(old(dev.files), ds);
        && dev.files == SweptFiles(old(dev.files), ks, ring, respond, dev.name)
        && dev.quarantined == old(dev.quarantined) + QuarantinedNames(old(dev.files), ks, ring, respond, dev.name)
        && Counters() == Plus(old(Counters()), TallyStats(old(dev.files), ks, ring, respond, dev.name))
        && dev.prefixes == Pruned(old(dev.prefixes), ds, old(dev.files), ring, respond, dev.name)
        && old(sent) <= sent && SentIn(sent[|old(sent)|..], old(dev.files), dev.name, ring, pid, policy, ds)
    {
      ghost var files0, p0, q0, c0 := dev.files, dev.prefixes, dev.quarantined, Counters();
      var listing := ListDir(set d | d in dev.prefixes && d.asyncdir == asyncdir :: d.prefix);
      assert PrefixListing(p0, asyncdir, listing);
      ghost var done: set<PrefixPath> := {};
      PrunedNone(p0, files0, ring, respond, dev.name);
      for j := 0 to |listing|
        invariant done == ListedDirs(p0, asyncdir, listing[..j])
        invariant dev.files == SweptFiles(files0, KeysIn(files0, done), ring, respond, dev.name)
        invariant dev.quarantined == q0 + QuarantinedNames(files0, KeysIn(files0, done), ring, respond, dev.name)
        invariant Counters() == Plus(c0, TallyStats(files0, KeysIn(files0, done), ring, respond, dev.name))
        invariant dev.prefixes == Pruned(p0, done, files0, ring, respond, dev.name)
        invariant old(sent) <= sent && SentIn(sent[|old(sent)|..], files0, dev.name, ring, pid, policy, done)
      {
        done := SweepListed(dev, asyncdir, listing, j, policy, respond, files0, p0, q0, c0, done, old(sent));
      }
      ListedAll(p0, asyncdir, listing);
    }

    /**
      One name of the listing of an async-pending directory: when it is a
      directory, it is swept and removed if the sweep emptied it, and the
      state moves from what sweeping the directories of `listing[..j]` leaves
      to what sweeping those of `listing[..j + 1]` leaves.
     */
    method SweepListed(dev: Device, asyncdir: string, listing: seq<string>, j: nat, policy: int, respond: Responder,
                       ghost files0: map<UpdatePath, Entry>, ghost p0: map<PrefixPath, Kind>, ghost q0: set<string>, ghost c0: Stats,
                       ghost done: set<PrefixPath>, ghost s0: seq<Request>)
      returns (ghost done': set<PrefixPath>)
      requires PrefixListing(p0, asyncdir, listing) && j < |listing|
      requires done == ListedDirs(p0, asyncdir, listing[..j])
      requires dev.files == SweptFiles(files0, KeysIn(files0, done), ring, respond, dev.name)
      requires dev.quarantined == q0 + QuarantinedNames(files0, KeysIn(files0, done), ring, respond, dev.name)
      requires Counters() == Plus(c0, TallyStats(files0, KeysIn(files0, done), ring, respond, dev.name))
      requires dev.prefixes == Pruned(p0, done, files0, ring, respond, dev.name)
      requires s0 <= sent && SentIn(sent[|s0|..], files0, dev.name, ring, pid, policy, done)
      modifies this, dev`files, dev`quarantined, dev`prefixes
      ensures done' == ListedDirs(p0, asyncdir, listing[..j + 1])
      ensures dev.files == SweptFiles(files0, KeysIn(files0, done'), ring, respond, dev.name)
      ensures dev.quarantined == q0 + QuarantinedNames(files0, KeysIn(files0, done'), ring, respond, dev.name)
      ensures Counters() == Plus(c0, TallyStats(files0, KeysIn(files0, done'), ring, respond, dev.name))
      ensures dev.prefixes == Pruned(p0, done', files0, ring, respond, dev.name)
      ensures s0 <= sent && SentIn(sent[|s0|..], files0, dev.name, ring, pid, policy, done')
    {
      var d := PrefixPath(asyncdir, listing[j]);
      ListedStep(p0, asyncdir, listing, j);
      done' := done;
      if dev.prefixes[d] == Directory {
        done' := SweepListedDir(dev, d, policy, respond, files0, p0, q0, c0, done, s0);
      }
    }

    /** A prefix directory not swept yet is swept, and removed if the sweep emptied it. */
    method SweepListedDir(dev: Device, d: PrefixPath, policy: int, respond: Responder,
                          ghost files0: map<UpdatePath, Entry>, ghost p0: map<PrefixPath, Kind>, ghost q0: set<string>, ghost c0: Stats,
                          ghost done: set<PrefixPath>, ghost s0: seq<Request>)
      returns (ghost done': set<PrefixPath>)
      requires d !in done && d in dev.prefixes
      requires dev.files == SweptFiles(files0, KeysIn(files0, done), ring, respond, dev.name)
      requires dev.quarantined == q0 + QuarantinedNames(files0, KeysIn(files0, done), ring, respond, dev.name)
      requires Counters() == Plus(c0, TallyStats(files0, KeysIn(files0, done), ring, respond, dev.name))
      requires dev.prefixes == Pruned(p0, done, files0, ring, respond, dev.name)
      requires s0 <= sent && SentIn(sent[|s0|..], files0, dev.name, ring, pid, policy, done)
      modifies this, dev`files, dev`quarantined, dev`prefixes
      ensures done' == done + {d}
      ensures dev.files == SweptFiles(files0, KeysIn(files0, done'), ring, respond, dev.name)
      ensures dev.quarantined == q0 + QuarantinedNames(files0, KeysIn(files0, done'), ring, respond, dev.name)
      ensures Counters() == Plus(c0, TallyStats(files0, KeysIn(files0, done'), ring, respond, dev.name))
      ensures dev.prefixes == Pruned(p0, done', files0, ring, respond, dev.name)
      ensures s0 <= sent && SentIn(sent[|s0|..], files0, dev.name, ring, pid, policy, done')
    {
      SweepDirsCompose(files0, p0, done, {d}, q0, c0, ring, respond, dev.name);
      ghost var mid := sent;
      SweepPrefixDir(dev, d, policy, respond);
      SentInStep(s0, mid, sent, files0, done, {d}, ring, respond, dev.name, pid, policy);
      done' := done + {d};
    }

    /**
      `object_sweep` of a device: every directory at its top that is named
      `async_pending` or `async_pending-<policy>` and maps to a valid policy
      is swept with that policy.
     */
    method ObjectSweep(dev: Device, respond: Responder)
      modifies this, dev`files, dev`quarantined, dev`prefixes
      ensures var ds := SweepDirs(old(dev.top), old(dev.prefixes), validPolicy);
        var ks := KeysIn(old(dev.files), ds);
        && dev.files == SweptFiles(old(dev.files), ks, ring, respond, dev.name)
        && dev.quarantined == old(dev.quarantined) + QuarantinedNames(old(dev.files), ks, ring, respond, dev.name)
        && Counters() == Plus(old(Counters()), TallyStats(old(dev.files), ks, ring, respond, dev.name))
        && dev.prefixes == Pruned(old(dev.prefixes), ds, old(dev.files), ring, respond, dev.name)
        && old(sent) <= sent && SentInSweep(sent[|old(sent)|..], old(dev.files), dev.name, ring, pid, validPolicy, ds)
    {
      ghost var files0, p0, q0, c0 := dev.files, dev.prefixes, dev.quarantined, Counters();
      var names := ListDir(dev.top.Keys);
      ghost var done: set<PrefixPath> := {};
      PrunedNone(p0, files0, ring, respond, dev.name);
      for j := 0 to |names|
        invariant done == SweptAmong(dev.top, p0, validPolicy, names[..j])
        invariant dev.files == SweptFiles(files0, KeysIn(files0, done), ring, respond, dev.name)
        invariant dev.quarantined == q0 + QuarantinedNames(files0, KeysIn(files0, done), ring, respond, dev.name)
        invariant Counters() == Plus(c0, TallyStats(files0, KeysIn(files0, done), ring, respond, dev.name))
        invariant dev.prefixes == Pruned(p0, done, files0, ring, respond, dev.name)
        invariant old(sent) <= sent && SentInSweep(sent[|old(sent)|..], files0, dev.name, ring, pid, validPolicy, done)
      {
        var asyncdir := names[j];
        SweptAmongStep(dev.top, p0, validPolicy, names, j, files0, ring, respond, dev.name);
        var dirPolicy := AsyncDirPolicy(asyncdir, validPolicy);
        if !dirPolicy.NotAsyncDir? && dev.top[asyncdir] == Directory && dirPolicy.Policy? {
          SweepDirsCompose(files0, p0, done, PrefixDirsOf(p0, asyncdir), q0, c0, ring, respond, dev.name);
          ghost var mid := sent;
          SweepAsyncDir(dev, asyncdir, dirPolicy.index, respond);
          SentInSweepStep(old(sent), mid, sent, files0, done, PrefixDirsOf(p0, asyncdir), asyncdir, dirPolicy.index,
                          ring, respond, dev.name, pid, validPolicy);
          done := done + PrefixDirsOf(p0, asyncdir);
        }
      }
      SweptAmongAll(dev.top, p0, validPolicy, names);
    }

    /** The body of the device loop of `run_once`. */
    method RunDevice(dev: Device, respond: Responder)
      modifies this, dev`files, dev`quarantined, dev`prefixes
      ensures dev.State() == AfterRun(old(dev.State()), mountCheck, validPolicy, ring, respond)
      ensures Counters() == Plus(old(Counters()), DeviceStats(old(dev.State()), mountCheck, validPolicy, ring, respond))
      ensures old(sent) <= sent
      ensures if Skipped(old(dev.State()), mountCheck) then sent == old(sent)
              else SentInSweep(sent[|old(sent)|..], old(dev.files), dev.name, ring, pid, validPolicy,
                               SweepDirs(old(dev.top), old(dev.prefixes), validPolicy))
    {
      if mountCheck && !dev.mounted {
        errors := errors + 1;
      } else {
        ObjectSweep(dev, respond);
      }
    }

    /** One turn of `run_once`'s loop: device `i` is swept and the others are left alone. */
    method RunAt(devs: seq<Device>, i: nat, dev: Device, respond: Responder, ghost states: seq<DeviceState>, ghost base: Stats,
                 ghost finals: seq<DeviceState>) returns (ghost finals': seq<DeviceState>)
      requires forall a, b :: 0 <= a < b < |devs| ==> devs[a] != devs[b]
      requires i < |devs| == |states| && |finals| == i && dev == devs[i]
      requires forall j :: 0 <= j < |devs| ==> devs[j].State() == if j < i then finals[j] else states[j]
      requires forall j :: 0 <= j < i ==> finals[j] == AfterRun(states[j], mountCheck, validPolicy, ring, respond)
      requires Counters() == Plus(base, RunStats(states[..i], mountCheck, validPolicy, ring, respond))
      modifies this, dev`files, dev`quarantined, dev`prefixes
      ensures |finals'| == i + 1
      ensures forall j :: 0 <= j < i + 1 ==> finals'[j] == AfterRun(states[j], mountCheck, validPolicy, ring, respond)
      ensures forall j :: 0 <= j < |devs| ==> devs[j].State() == if j < i + 1 then finals'[j] else states[j]
      ensures Counters() == Plus(base, RunStats(states[..i + 1], mountCheck, validPolicy, ring, respond))
      ensures old(sent) <= sent
      ensures if Skipped(states[i], mountCheck) then sent == old(sent)
              else SentInSweep(sent[|old(sent)|..], states[i].files, states[i].name, ring, pid, validPolicy,
                               SweepDirs(states[i].top, states[i].prefixes, validPolicy))
    {
      RunStatsStep(states, i, base, mountCheck, validPolicy, ring, respond);
      RunDevice(dev, respond);
      finals' := finals + [dev.State()];
      forall j | 0 <= j < |devs| && j != i ensures devs[j].State() == old(devs[j].State()) {
        assert devs[j] != dev;
      }
    }

    /**
      `run_once`: clears the two counters, then sweeps every device in the
      order listed, counting an error for each one skipped because it is not
      mounted while mount checking is on.
     */
    method RunOnce(devs: seq<Device>, respond: Responder)
      requires forall i, j :: 0 <= i < j < |devs| ==> devs[i] != devs[j]
      modifies this, set d | d in devs
      ensures forall i :: 0 <= i < |devs| ==>
        devs[i].State() == AfterRun(old(devs[i].State()), mountCheck, validPolicy, ring, respond)
      ensures Counters() == Plus(Stats(0, 0, old(errors), old(unlinks), old(quarantines)),
                                 RunStats(old(States(devs)), mountCheck, validPolicy, ring, respond))
      ensures old(sent) <= sent && SentInRun(sent[|old(sent)|..], old(States(devs)), mountCheck, ring, pid, validPolicy)
    {
      ghost var states := States(devs);
      successes := 0;
      failures := 0;
      ghost var base := Counters();
      ghost var finals: seq<DeviceState> := [];
      for i := 0 to |devs|
        invariant |finals| == i
        invariant forall j :: 0 <= j < i ==> finals[j] == AfterRun(states[j], mountCheck, validPolicy, ring, respond)
        invariant forall j :: 0 <= j < |devs| ==> devs[j].State() == if j < i then finals[j] else states[j]
        invariant Counters() == Plus(base, RunStats(states[..i], mountCheck, validPolicy, ring, respond))
        invariant old(sent) <= sent && SentInRun(sent[|old(sent)|..], states, mountCheck, ring, pid, validPolicy)
      {
        ghost var mid := sent;
        finals := RunAt(devs, i, devs[i], respond, states, base, finals);
        SentInRunStep(old(sent), mid, sent, states, i, mountCheck, ring, pid, validPolicy);
      }
      assert states[..|devs|] == states;
    }
  }
}
