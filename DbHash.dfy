/**
 * lib/rbot/dbhash.rb: the Berkeley DB storage layer of the bot.
 *
 * - `BDB::CIBtree#bdb_bt_compare`, the case-insensitive key order of every
 *   ordered store;
 * - the open-or-create rule of `DBHash#initialize` and `DBTree#initialize`
 *   (an existing file is opened "r+", a missing one is created with
 *   CREATE|EXCL);
 * - the process-wide environment `@@env` of `DBTree`: opened lazily once
 *   (one retry without `set_lg_max`), checkpointed and its archivable logs
 *   deleted by `cleanup_logs`, closed and removed by `cleanup_env`.
 *
 * Berkeley DB itself is abstract: the filesystem is a set of paths, the
 * environment a record with its active-transaction count and its log lists.
 * Each environment and cleanup call into the library that can raise is given
 * as a fault flag; a database open fails when its file appeared or vanished
 * after the `File.exist?` test, given as the directory the open finds.
 */
module DbHash {
  import opened Wrappers
  import opened Text

  // ---------------------------------------------------------------------
  // BDB::CIBtree#bdb_bt_compare
  // ---------------------------------------------------------------------

  /** Ruby's String#<=>: character by character, a proper prefix first. */
  function Spaceship(a: string, b: string): (r: int)
    ensures r == -1 || r == 0 || r == 1
    ensures r == 0 <==> a == b
    decreases |a|
  {
    if a == [] && b == [] then 0
    else if a == [] then -1
    else if b == [] then 1
    else if a[0] < b[0] then -1
    else if a[0] > b[0] then 1
    else
      assert a == [a[0]] + a[1..] && b == [b[0]] + b[1..];
      Spaceship(a[1..], b[1..])
  }

  lemma {:induction false} SpaceshipAntisymmetric(a: string, b: string)
    ensures Spaceship(a, b) == -Spaceship(b, a)
    decreases |a|
  {
    if a != [] && b != [] && a[0] == b[0] {
      SpaceshipAntisymmetric(a[1..], b[1..]);
    }
  }

  lemma {:induction false} SpaceshipTransitive(a: string, b: string, c: string)
    requires Spaceship(a, b) <= 0 && Spaceship(b, c) <= 0
    ensures Spaceship(a, c) <= 0
    decreases |a|
  {
    if a != [] && b != [] && c != [] && a[0] == b[0] && b[0] == c[0] {
      SpaceshipTransitive(a[1..], b[1..], c[1..]);
    }
  }

  /** Two keys that differ at most in the case of ASCII letters. */
  predicate SameIgnoringCase(x: string, y: string) {
    |x| == |y| && forall i :: 0 <= i < |x| ==> Lower(x[i]) == Lower(y[i])
  }

  /** The comparator's answer, and whether it logged its nil-operand warning. */
  datatype Comparison = Comparison(order: int, warned: bool)

  /** `a || ''`: a missing operand compares as the empty string. */
  function OrEmpty(k: Option<string>): string {
    k.GetOr("")
  }

  /** BDB::CIBtree#bdb_bt_compare: `(a||'').downcase <=> (b||'').downcase`. */
  function CompareKeys(a: Option<string>, b: Option<string>): (r: Comparison)
    ensures r.order == -1 || r.order == 0 || r.order == 1
    ensures r.order == 0 <==> SameIgnoringCase(OrEmpty(a), OrEmpty(b))
    ensures r.warned <==> a.None? || b.None?
  {
    var x, y := Downcase(OrEmpty(a)), Downcase(OrEmpty(b));
    assert x == y <==> SameIgnoringCase(OrEmpty(a), OrEmpty(b)) by {
      if SameIgnoringCase(OrEmpty(a), OrEmpty(b)) {
        assert forall i :: 0 <= i < |x| ==> x[i] == y[i];
      }
    }
    Comparison(Spaceship(x, y), a.None? || b.None?)
  }

  /** Swapping the operands negates the order. */
  lemma CompareKeysAntisymmetric(a: Option<string>, b: Option<string>)
    ensures CompareKeys(a, b).order == -CompareKeys(b, a).order
  {
    SpaceshipAntisymmetric(Downcase(OrEmpty(a)), Downcase(OrEmpty(b)));
  }

  /** The order is transitive, so it is a total preorder a btree can use. */
  lemma CompareKeysTransitive(a: Option<string>, b: Option<string>, c: Option<string>)
    requires CompareKeys(a, b).order <= 0 && CompareKeys(b, c).order <= 0
    ensures CompareKeys(a, c).order <= 0
  {
    SpaceshipTransitive(Downcase(OrEmpty(a)), Downcase(OrEmpty(b)), Downcase(OrEmpty(c)));
  }

  /** Comparing two keys is comparing their lower-cased forms, and nil is "". */
  lemma CompareKeysIsLowercaseOrder(a: Option<string>, b: Option<string>)
    ensures CompareKeys(a, b).order
         == Spaceship(Downcase(OrEmpty(a)), Downcase(OrEmpty(b)))
    ensures CompareKeys(a, b).order
         == CompareKeys(Some(Downcase(OrEmpty(a))), Some(Downcase(OrEmpty(b)))).order
  {
    var x, y := Downcase(OrEmpty(a)), Downcase(OrEmpty(b));
    assert Downcase(x) == x;
    assert Downcase(y) == y;
  }

  /** Keys that differ only in letter case sit at the same place in the order. */
  lemma CaseVariantsCompareAlike(x: string, x': string, b: Option<string>)
    requires SameIgnoringCase(x, x')
    ensures CompareKeys(Some(x), b).order == CompareKeys(Some(x'), b).order
  {
    assert Downcase(x) == Downcase(x');
  }

  // ---------------------------------------------------------------------
  // Path resolution and the open-or-create rule
  // ---------------------------------------------------------------------

  const DbSuffix: string := ".db"

  /**
   * The file a store lives in. `botPathOfKey` is what `@bot.path key` gives
   * (the bot's method is not part of this model); with `absolute` the key is
   * the file name itself, with no suffix.
   */
  function ResolvePath(botPathOfKey: string, key: string, absolute: bool): (p: string)
    ensures absolute ==> p == key
    ensures !absolute ==> (|p| == |botPathOfKey| + 3
                           && p[..|botPathOfKey|] == botPathOfKey
                           && p[|botPathOfKey|..] == DbSuffix)
  {
    if absolute then key else botPathOfKey + DbSuffix
  }


  datatype Flavour = HashFile | TreeFile

  /** `"r+"` (open_db) or `CREATE | EXCL` (create_db). */
  datatype OpenMode = ReadWrite | CreateExclusive

  datatype Handle = Handle(flavour: Flavour, path: string, mode: OpenMode)

  datatype DbError =
    | AlreadyExists(path: string)
    | NoSuchFile(path: string)
    | EnvOpenFailed

  /**
   * open_db / create_db of DBHash and DBTree: "r+" needs the file, CREATE|EXCL
   * fails when it is already there; a successful open leaves the file present.
   */
  function OpenFile(flavour: Flavour, mode: OpenMode, files: set<string>, path: string)
    : (r: Result<(Handle, set<string>), DbError>)
    ensures r.Success? <==> (mode == ReadWrite <==> path in files)
    ensures r.Success? ==> r.value.0 == Handle(flavour, path, mode) && r.value.1 == files + {path}
    ensures r.Failure? && mode == ReadWrite ==> r.error == NoSuchFile(path)
    ensures r.Failure? && mode == CreateExclusive ==> r.error == AlreadyExists(path)
  {
    match mode
    case ReadWrite =>
      if path in files then Success((Handle(flavour, path, mode), files)) else Failure(NoSuchFile(path))
    case CreateExclusive =>
      if path in files then Failure(AlreadyExists(path)) else Success((Handle(flavour, path, mode), files + {path}))
  }

  /**
   * DBHash#initialize, and DBTree#initialize once the environment is open:
   * `File.exist?` is asked of `seen`, the open itself runs against `atOpen`
   * (equal to `seen` unless another process changed the directory meanwhile).
   */
  function OpenStore(flavour: Flavour, seen: set<string>, atOpen: set<string>,
                     botPathOfKey: string, key: string, absolute: bool)
    : (r: Result<(Handle, set<string>), DbError>)
    ensures var p := ResolvePath(botPathOfKey, key, absolute);
            && (r.Success? ==> r.value.0.path == p && r.value.1 == atOpen + {p})
            // an existing file is opened, never re-created
            && (p in seen && r.Success? ==> r.value.0.mode == ReadWrite)
            // a file is created only where none existed, so nothing is truncated
            && (r.Success? && r.value.0.mode == CreateExclusive ==> p !in atOpen)
            // with no interference the open always succeeds
            && (seen == atOpen ==> r.Success? && (r.value.0.mode == ReadWrite <==> p in seen))
            // losing the creation race is an error, not a silent open
            && (p !in seen && p in atOpen ==> r == Failure(AlreadyExists(p)))
  {
    var p := ResolvePath(botPathOfKey, key, absolute);
    var mode := if p in seen then ReadWrite else CreateExclusive;
    OpenFile(flavour, mode, atOpen, p)
  }

  // ---------------------------------------------------------------------
  // The shared environment @@env
  // ---------------------------------------------------------------------

  /** `@@lg_max`, 64 MiB; the "four times lg_bsize" rule is not checked. */
  const LgMax: nat := 64 * 1024 * 1024

  /**
   * An open BDB::Env: its home directory, the lg_max it was opened with
   * (None after the retry), the number of active transactions (`st_nactive`),
   * the logs a checkpoint will free (`pending`) and the logs `log_archive`
   * currently lists (`archivable`).
   */
  datatype Env = Env(home: string, lgMax: Option<nat>, nactive: nat,
                     pending: seq<string>, archivable: seq<string>)

  /**
   * What the layer can see and touch: `@@env`, the files on disk, and the
   * homes whose environment region files are on disk.
   */
  datatype Store = Store(env: Option<Env>, files: set<string>, regions: set<string>)

  /** The library calls, in the order they are made. */
  datatype Call =
    | OpenEnv(home: string, withLgMax: bool)
    | ReadConf                            // `@@env.conf['lg_max']` for the debug line
    | OpenDb(path: string, mode: OpenMode) // `@@env.open_db` of DBTree.open_db / create_db
    | TxnStat
    | Checkpoint
    | LogFlush
    | LogArchive
    | DeleteLog(path: string)
    | CloseEnv
    | RemoveEnv(home: string)

  /**
   * Which calls of the lazy open raise: the first `BDB::Env.open`, the
   * `conf` read after it (inside the same begin/rescue), and the retry.
   */
  datatype OpenFaults = OpenFaults(first: bool, conf: bool, retry: bool)

  /** Which library calls of the cleanup raise. */
  datatype CleanupFaults = CleanupFaults(txnStat: bool, checkpoint: bool, logFlush: bool,
                                         logArchive: bool, close: bool, remove: bool)

  /** A new state together with the library calls made to reach it. */
  datatype Effect = Effect(store: Store, calls: seq<Call>)

  function OpenedAt(s: Store, home: string, lgMax: Option<nat>): Store {
    s.(env := Some(Env(home, lgMax, 0, [], [])), regions := s.regions + {home})
  }

  /** The `if @@env.nil?` block: whether it raised, the state it leaves and its calls. */
  datatype EnvOpen = EnvOpen(failed: bool, store: Store, calls: seq<Call>)

  /**
   * The lazy open of DBTree#initialize: nothing happens when `@@env` is set.
   * Otherwise one attempt with set_lg_max, whose environment is assigned to
   * `@@env` before its `conf` is read; if the attempt or the read raises,
   * exactly one more open without set_lg_max, which replaces `@@env` or
   * propagates its exception. A failing retry after a failing read leaves
   * `@@env` holding the first environment.
   */
  function EnsureEnv(s: Store, home: string, f: OpenFaults): (r: EnvOpen)
    ensures s.env.Some? ==> r == EnvOpen(false, s, [])
    ensures s.env.None? ==>
              && |r.calls| == (if f.first then 2 else if f.conf then 3 else 2)
              && r.calls[0] == OpenEnv(home, true)
              && (!f.first ==> r.calls[1] == ReadConf)
              // the retry runs exactly when the first open or the conf read raised
              && (OpenEnv(home, false) in r.calls <==> f.first || f.conf)
              && (OpenEnv(home, false) in r.calls ==> r.calls[|r.calls| - 1] == OpenEnv(home, false))
    ensures r.store.files == s.files
    ensures r.failed <==> s.env.None? && (f.first || f.conf) && f.retry
    ensures !r.failed ==> r.store.env.Some?
    ensures !r.failed && s.env.None? ==>
              r.store.env.value == Env(home, if f.first || f.conf then None else Some(LgMax), 0, [], [])
    ensures r.failed && f.first ==> r.store == s
    ensures r.failed && !f.first ==> r.store == OpenedAt(s, home, Some(LgMax))
  {
    if s.env.Some? then EnvOpen(false, s, [])
    else if f.first then
      if f.retry then EnvOpen(true, s, [OpenEnv(home, true), OpenEnv(home, false)])
      else EnvOpen(false, OpenedAt(s, home, None), [OpenEnv(home, true), OpenEnv(home, false)])
    else
      var s1 := OpenedAt(s, home, Some(LgMax));
      if !f.conf then EnvOpen(false, s1, [OpenEnv(home, true), ReadConf])
      else if f.retry then EnvOpen(true, s1, [OpenEnv(home, true), ReadConf, OpenEnv(home, false)])
      else EnvOpen(false, OpenedAt(s1, home, None), [OpenEnv(home, true), ReadConf, OpenEnv(home, false)])
  }

  /** Once open, every later DBTree shares the same environment. */
  lemma EnvSharedAfterOpen(s: Store, home: string, f: OpenFaults, home': string, f': OpenFaults)
    requires !EnsureEnv(s, home, f).failed
    ensures var s1 := EnsureEnv(s, home, f).store;
            EnsureEnv(s1, home', f') == EnvOpen(false, s1, [])
  {
  }

  /**
   * When the `conf` read and the retry both raise, DBTree.new raises, yet
   * `@@env` holds the first environment, so the next DBTree uses it without
   * opening anything.
   */
  lemma FailedRetryKeepsFirstEnv(s: Store, home: string, home': string, f': OpenFaults)
    requires s.env.None?
    ensures var first := EnsureEnv(s, home, OpenFaults(false, true, true));
            && first.failed
            && first.store.env == Some(Env(home, Some(LgMax), 0, [], []))
            && EnsureEnv(first.store, home', f') == EnvOpen(false, first.store, [])
  {
  }

  /** The result of DBTree#initialize: the handle or the error, and the effect. */
  datatype TreeOpened = TreeOpened(result: Result<Handle, DbError>, effect: Effect)

  /** The mode DBTree#initialize picks from `File.exist?`. */
  function TreeMode(files: set<string>, path: string): OpenMode {
    if path in files then ReadWrite else CreateExclusive
  }

  /**
   * DBTree#initialize: the environment first, then the open-or-create rule.
   * `File.exist?` sees the disk as it was; the `open_db` call runs against
   * `atOpen`, the directory as another process may have changed it meanwhile.
   */
  function OpenTree(s: Store, home: string, f: OpenFaults, atOpen: set<string>,
                    botPathOfKey: string, key: string, absolute: bool): (r: TreeOpened)
    ensures var e := EnsureEnv(s, home, f);
            var p := ResolvePath(botPathOfKey, key, absolute);
            var mode := TreeMode(s.files, p);
            && (s.env.Some? ==> r.effect.store.env == s.env)
            // a failed environment open stops before any database call
            && (e.failed ==> r.result == Failure(EnvOpenFailed) && r.effect == Effect(e.store, e.calls))
            // otherwise the database is opened "r+" if it existed and created otherwise
            && (!e.failed ==> r.effect.calls == e.calls + [OpenDb(p, mode)] && r.effect.store.env.Some?
                              && r.effect.store.env == e.store.env && r.effect.store.regions == e.store.regions)
            && (r.result.Success? <==> !e.failed && (mode == ReadWrite <==> p in atOpen))
            && (r.result.Success? ==> r.result.value == Handle(TreeFile, p, mode)
                                      && r.effect.store.files == atOpen + {p})
            // the file came or went in between: the open raises with the environment kept open
            && (!e.failed && r.result.Failure? ==>
                  && r.result.error == (if mode == ReadWrite then NoSuchFile(p) else AlreadyExists(p))
                  && r.effect.store.files == atOpen)
    // with nobody else touching the directory only the environment open can fail
    ensures atOpen == s.files ==> (r.result.Success? <==> !EnsureEnv(s, home, f).failed)
  {
    var e := EnsureEnv(s, home, f);
    if e.failed then TreeOpened(Failure(EnvOpenFailed), Effect(e.store, e.calls))
    else
      var p := ResolvePath(botPathOfKey, key, absolute);
      var calls := e.calls + [OpenDb(p, TreeMode(s.files, p))];
      match OpenStore(TreeFile, e.store.files, atOpen, botPathOfKey, key, absolute)
      case Failure(err) => TreeOpened(Failure(err), Effect(e.store.(files := atOpen), calls))
      case Success((h, files)) => TreeOpened(Success(h), Effect(e.store.(files := files), calls))
  }

  lemma AppendAssoc<T>(a: seq<T>, b: seq<T>, c: seq<T>)
    ensures a + (b + c) == a + b + c
  {
  }

  /** Paths as a set. */
  function Elems(logs: seq<string>): set<string> {
    set k | 0 <= k < |logs| :: logs[k]
  }

  function Deletes(logs: seq<string>): (cs: seq<Call>)
    ensures |cs| == |logs|
    ensures forall k :: 0 <= k < |logs| ==> cs[k] == DeleteLog(logs[k])
  {
    seq(|logs|, k requires 0 <= k < |logs| => DeleteLog(logs[k]))
  }

  /**
   * `logs.each { |log| File.delete(log) }`: File.delete raises on a missing
   * file, which ends the loop. Gives the files left and how many were deleted.
   */
  function DeleteLogs(files: set<string>, logs: seq<string>): (r: (set<string>, nat))
    ensures r.1 <= |logs|
    decreases |logs|
  {
    if logs == [] || logs[0] !in files then (files, 0)
    else
      var (rest, n) := DeleteLogs(files - {logs[0]}, logs[1..]);
      (rest, n + 1)
  }

  /** The loop removes exactly the logs it got through, and stops at a missing one. */
  lemma {:induction false} DeleteLogsRemovesPrefix(files: set<string>, logs: seq<string>)
    ensures var (left, n) := DeleteLogs(files, logs);
            && left == files - Elems(logs[..n])
            && Elems(logs[..n]) <= files
            && (n < |logs| ==> logs[n] !in left)
    decreases |logs|
  {
    if logs != [] && logs[0] in files {
      var (left, n) := DeleteLogs(files - {logs[0]}, logs[1..]);
      DeleteLogsRemovesPrefix(files - {logs[0]}, logs[1..]);
      assert Elems(logs[..n + 1]) == {logs[0]} + Elems(logs[1..][..n]) by {
        assert logs[..n + 1] == [logs[0]] + logs[1..][..n];
      }
      if n + 1 < |logs| {
        assert logs[n + 1] == logs[1..][n];
      }
    } else {
      assert logs[..0] == [];
    }
  }

  lemma DeletesSnoc(logs: seq<string>, n: nat)
    requires n < |logs|
    ensures Deletes(logs[..n + 1]) == Deletes(logs[..n]) + [DeleteLog(logs[n])]
  {
    assert logs[..n + 1] == logs[..n] + [logs[n]];
  }

  /** One file of the loop deleted: the rest of the loop runs on what is left. */
  lemma DeleteLogsStep(files: set<string>, logs: seq<string>, n: nat)
    requires n < |logs| && logs[n] in files
    ensures DeleteLogs(files, logs[n..]).0 == DeleteLogs(files - {logs[n]}, logs[n + 1..]).0
    ensures DeleteLogs(files, logs[n..]).1 == DeleteLogs(files - {logs[n]}, logs[n + 1..]).1 + 1
  {
    assert logs[n..][1..] == logs[n + 1..];
  }

  predicate Distinct(logs: seq<string>) {
    forall i, j :: 0 <= i < j < |logs| ==> logs[i] != logs[j]
  }

  /** When every listed log is on disk (and listed once), all of them go. */
  lemma {:induction false} DeleteLogsAllPresent(files: set<string>, logs: seq<string>)
    requires Distinct(logs)
    requires Elems(logs) <= files
    ensures DeleteLogs(files, logs) == (files - Elems(logs), |logs|)
    decreases |logs|
  {
    if logs != [] {
      assert logs[0] in Elems(logs);
      var tail := logs[1..];
      assert Elems(logs) == {logs[0]} + Elems(tail) by {
        assert logs == [logs[0]] + tail;
      }
      assert logs[0] !in Elems(tail) by {
        forall k | 0 <= k < |tail| ensures tail[k] != logs[0] {
          assert tail[k] == logs[k + 1];
        }
      }
      assert Distinct(tail) by {
        forall i, j | 0 <= i < j < |tail| ensures tail[i] != tail[j] {
          assert tail[i] == logs[i + 1] && tail[j] == logs[j + 1];
        }
      }
      assert Elems(tail) <= files - {logs[0]};
      DeleteLogsAllPresent(files - {logs[0]}, tail);
      assert files - {logs[0]} - Elems(tail) == files - Elems(logs);
    } else {
      assert Elems(logs) == {};
      assert files - Elems(logs) == files;
    }
  }

  /** The environment after a checkpoint: everything pending is archivable. */
  function Checkpointed(e: Env): Env {
    e.(archivable := e.archivable + e.pending, pending := [])
  }

  /**
   * DBTree.cleanup_logs: a checkpoint whose failure is only logged, then in a
   * second guarded block the log flush, `log_archive` and the deletion of
   * every listed log. With `@@env` nil both blocks raise and are swallowed.
   */
  function CleanupLogsSpec(s: Store, f: CleanupFaults): (r: Effect)
  {
    match s.env
    case None => Effect(s, [])
    case Some(e) =>
      var rest := CleanupLogsSecondBlock(s.(env := Some(AfterCheckpoint(e, f))), f);
      Effect(rest.store, [Checkpoint] + rest.calls)
  }

  /** The second guarded block of cleanup_logs: flush, archive, then delete what is listed. */
  function CleanupLogsSecondBlock(s1: Store, f: CleanupFaults): Effect
    requires s1.env.Some?
  {
    if f.logFlush then Effect(s1, [LogFlush])
    else if f.logArchive then Effect(s1, [LogFlush, LogArchive])
    else
      var purge := PurgeLogs(s1);
      Effect(purge.store, [LogFlush, LogArchive] + purge.calls)
  }

  /**
   * The deletion loop of cleanup_logs, over the logs the environment lists as
   * archivable: the logs it got through are gone from disk and from the list,
   * and each deletion tried, the failing one included, is a library call.
   */
  function PurgeLogs(s: Store): Effect
    requires s.env.Some?
  {
    var e1 := s.env.value;
    var logs := e1.archivable;
    var (left, n) := DeleteLogs(s.files, logs);
    var tried := if n < |logs| then n + 1 else n;
    Effect(Store(Some(e1.(archivable := logs[n..])), left, s.regions), Deletes(logs[..tried]))
  }

  /** The deletion loop makes no library call but DeleteLog. */
  lemma PurgeOnlyDeletes(s: Store)
    requires s.env.Some?
    ensures forall c :: c in PurgeLogs(s).calls ==> c.DeleteLog?
  {
    var logs := s.env.value.archivable;
    var (left, n) := DeleteLogs(s.files, logs);
    var tried := if n < |logs| then n + 1 else n;
    var ds := Deletes(logs[..tried]);
    assert forall k :: 0 <= k < |ds| ==> ds[k].DeleteLog?;
  }

  /** The logs cleanup_logs could list: those archivable now or after a checkpoint. */
  function Recyclable(e: Env): set<string> {
    Elems(e.archivable + e.pending)
  }

  /** The environment that cleanup_logs works on once the checkpoint is done. */
  function AfterCheckpoint(e: Env, f: CleanupFaults): Env {
    if f.checkpoint then e else Checkpointed(e)
  }

  lemma AfterCheckpointRecyclable(e: Env, f: CleanupFaults)
    ensures Elems(AfterCheckpoint(e, f).archivable) <= Recyclable(e)
  {
    var e1 := AfterCheckpoint(e, f);
    forall k | 0 <= k < |e1.archivable| ensures e1.archivable[k] in Recyclable(e) {
      assert e1.archivable[k] == (e.archivable + e.pending)[k];
    }
  }

  /** cleanup_logs keeps the environment and touches no file but the logs. */
  lemma CleanupLogsKeepsEnv(s: Store, f: CleanupFaults)
    requires s.env.Some?
    ensures var r := CleanupLogsSpec(s, f);
            && r.store.regions == s.regions
            && r.store.env.Some?
            && r.store.env.value.home == s.env.value.home
            && r.store.env.value.nactive == s.env.value.nactive
            && r.calls[..2] == [Checkpoint, LogFlush]
            && (!f.logFlush ==> LogArchive in r.calls)
  {
    var r := CleanupLogsSpec(s, f);
    assert f.logFlush || r.calls[2] == LogArchive;
  }

  /** The deletion loop removes only listed logs, and tries only listed ones. */
  lemma PurgeDeletesListed(s: Store)
    requires s.env.Some?
    ensures var r := PurgeLogs(s);
            && r.store.files <= s.files
            && s.files - r.store.files <= Elems(s.env.value.archivable)
            && (forall p :: DeleteLog(p) in r.calls ==> p in Elems(s.env.value.archivable))
  {
    var logs := s.env.value.archivable;
    var (left, n) := DeleteLogs(s.files, logs);
    DeleteLogsRemovesPrefix(s.files, logs);
    var tried := if n < |logs| then n + 1 else n;
    assert Elems(logs[..n]) <= Elems(logs) by {
      forall k | 0 <= k < n ensures logs[..n][k] in Elems(logs) {
        assert logs[..n][k] == logs[k];
      }
    }
    var cs := Deletes(logs[..tried]);
    forall p | DeleteLog(p) in cs ensures p in Elems(logs) {
      var i :| 0 <= i < |cs| && cs[i] == DeleteLog(p);
      assert logs[i] in Elems(logs);
    }
  }

  /** cleanup_logs only ever deletes logs that a checkpoint makes recyclable. */
  lemma CleanupLogsDeletesOnlyLogs(s: Store, f: CleanupFaults)
    requires s.env.Some?
    ensures var r := CleanupLogsSpec(s, f);
            && r.store.files <= s.files
            && s.files - r.store.files <= Recyclable(s.env.value)
            && (forall p :: DeleteLog(p) in r.calls ==> p in Recyclable(s.env.value))
  {
    var e := s.env.value;
    var r := CleanupLogsSpec(s, f);
    if !f.logFlush && !f.logArchive {
      var e1 := AfterCheckpoint(e, f);
      AfterCheckpointRecyclable(e, f);
      PurgeDeletesListed(s.(env := Some(e1)));
      var purge := PurgeLogs(s.(env := Some(e1)));
      forall p | DeleteLog(p) in r.calls ensures p in Recyclable(e) {
        assert DeleteLog(p) in purge.calls;
      }
    }
  }

  /** When every recyclable log is on disk and listed once, all are deleted. */
  lemma CleanupLogsFreesAllLogs(s: Store, f: CleanupFaults)
    requires s.env.Some?
    requires !f.checkpoint && !f.logFlush && !f.logArchive
    requires var e := s.env.value; Distinct(e.archivable + e.pending)
    requires Recyclable(s.env.value) <= s.files
    ensures CleanupLogsSpec(s, f).store.files == s.files - Recyclable(s.env.value)
    ensures CleanupLogsSpec(s, f).store.env.value.archivable == []
    ensures CleanupLogsSpec(s, f).store.env.value.pending == []
  {
    var e := s.env.value;
    DeleteLogsAllPresent(s.files, e.archivable + e.pending);
  }

  /** How cleanup_env ended, as its log messages tell. */
  datatype Report = CleanedUp | KeptForActiveTxns | CleanupFailed

  /**
   * DBTree.cleanup_env: read `st_nactive` first, run cleanup_logs, close the
   * environment and set `@@env` to nil, then remove the environment only if no
   * transaction was active. Any exception ends the sequence where it is raised.
   * The argument is the nil environment too: `@@env.txn_stat` then raises.
   */
  function CleanupEnvSpec(s: Store, f: CleanupFaults): (r: (Effect, Report))
  {
    match s.env
    case None => (Effect(s, []), CleanupFailed)
    case Some(e) =>
      if f.txnStat then (Effect(s, [TxnStat]), CleanupFailed)
      else
        var logs := CleanupLogsSpec(s, f);
        var (rest, report) := CloseAndRemove(logs.store, e.nactive > 0, e.home, f);
        (Effect(rest.store, [TxnStat] + logs.calls + rest.calls), report)
  }

  /**
   * The end of cleanup_env: close the environment and set `@@env` to nil, then
   * remove its region files at `home` unless a transaction was `active`.
   */
  function CloseAndRemove(s2: Store, active: bool, home: string, f: CleanupFaults): (Effect, Report)
  {
    if f.close then (Effect(s2, [CloseEnv]), CleanupFailed)
    else
      var closed := s2.(env := None);
      if active then (Effect(closed, [CloseEnv]), KeptForActiveTxns)
      else if f.remove then (Effect(closed, [CloseEnv, RemoveEnv(home)]), CleanupFailed)
      else (Effect(closed.(regions := closed.regions - {home}), [CloseEnv, RemoveEnv(home)]), CleanedUp)
  }

  /** The transaction count is the first thing read, before anything is touched. */
  lemma CleanupEnvReadsTxnsFirst(s: Store, f: CleanupFaults)
    requires s.env.Some?
    ensures var calls := CleanupEnvSpec(s, f).0.calls;
            |calls| >= 1 && calls[0] == TxnStat && TxnStat !in calls[1..]
  {
    var calls := CleanupEnvSpec(s, f).0.calls;
    if !f.txnStat {
      var logs := CleanupLogsSpec(s, f);
      CleanupLogsCalls(s, f);
      var rest := calls[1..];
      forall k | 0 <= k < |rest| ensures rest[k] != TxnStat {
        if k < |logs.calls| {
          assert rest[k] == logs.calls[k];
        }
      }
    }
  }

  /** cleanup_logs never reads the transaction count, closes or removes the environment. */
  lemma CleanupLogsCalls(s: Store, f: CleanupFaults)
    requires s.env.Some?
    ensures forall c :: c in CleanupLogsSpec(s, f).calls ==> !c.TxnStat? && !c.CloseEnv? && !c.RemoveEnv?
  {
    if !f.logFlush && !f.logArchive {
      PurgeOnlyDeletes(s.(env := Some(AfterCheckpoint(s.env.value, f))));
    }
  }

  /** After a cleanup that got past the close, `@@env` is nil. */
  lemma CleanupEnvClearsEnv(s: Store, f: CleanupFaults)
    requires s.env.Some? && !f.txnStat && !f.close
    ensures CleanupEnvSpec(s, f).0.store.env.None?
  {
  }

  /**
   * The environment is removed only when no transaction was active, and it is
   * the very last call, right after the close; with active transactions its
   * region files stay on disk.
   */
  lemma CleanupEnvRemovesOnlyWhenIdle(s: Store, f: CleanupFaults)
    requires s.env.Some?
    ensures var (eff, report) := CleanupEnvSpec(s, f);
            && (forall h :: RemoveEnv(h) in eff.calls ==>
                  s.env.value.nactive == 0 && h == s.env.value.home
                  && eff.calls[|eff.calls| - 1] == RemoveEnv(h)
                  && eff.calls[|eff.calls| - 2] == CloseEnv)
            && (s.env.value.nactive > 0 ==> eff.store.regions == s.regions)
            && (report == CleanedUp <==> s.env.value.nactive == 0 && !f.txnStat && !f.close && !f.remove)
            && (report == KeptForActiveTxns <==> s.env.value.nactive > 0 && !f.txnStat && !f.close)
  {
    CleanupLogsKeepsEnv(s, f);
    var (eff, report) := CleanupEnvSpec(s, f);
    var logs := CleanupLogsSpec(s, f);
    CleanupLogsCalls(s, f);
  }

  /** Files that are not recyclable logs (the databases) survive cleanup_env. */
  lemma CleanupEnvKeepsDatabases(s: Store, f: CleanupFaults)
    requires s.env.Some?
    ensures s.files - Recyclable(s.env.value) <= CleanupEnvSpec(s, f).0.store.files
  {
    CleanupLogsDeletesOnlyLogs(s, f);
  }

  // ---------------------------------------------------------------------
  // DBTree's shared state, as the class that owns @@env
  // ---------------------------------------------------------------------

  /**
   * The process-wide part of DBTree: the class variable `@@env`, and the
   * disk the library works on. Each method is proved to move the state
   * exactly as the function of the same name above says.
   */
  class DbTree {
    var env: Option<Env>
    var files: set<string>
    var regions: set<string>
    /** Every library call made so far. */
    ghost var calls: seq<Call>

    function State(): Store
      reads this
    {
      Store(env, files, regions)
    }

    /** The process starts with `@@env = nil` and whatever is on disk. */
    constructor(onDisk: set<string>)
      ensures State() == Store(None, onDisk, {}) && calls == []
    {
      env := None;
      files := onDisk;
      regions := {};
      calls := [];
    }

    /** The `if @@env.nil?` block of DBTree#initialize. */
    method EnsureOpen(home: string, f: OpenFaults) returns (r: Result<Env, DbError>)
      modifies this
      ensures var e := EnsureEnv(old(State()), home, f);
              && State() == e.store && calls == old(calls) + e.calls
              && r == if e.failed then Failure(EnvOpenFailed) else Success(e.store.env.value)
    {
      if env.Some? {
        return Success(env.value);
      }
      calls := calls + [OpenEnv(home, true)];
      if !f.first {
        env := Some(Env(home, Some(LgMax), 0, [], []));
        regions := regions + {home};
        calls := calls + [ReadConf];
        if !f.conf {
          return Success(env.value);
        }
      }
      calls := calls + [OpenEnv(home, false)];
      if f.retry {
        return Failure(EnvOpenFailed);
      }
      env := Some(Env(home, None, 0, [], []));
      regions := regions + {home};
      return Success(env.value);
    }

    /** DBTree#initialize; `atOpen` is the directory as `open_db` finds it. */
    method Open(home: string, f: OpenFaults, atOpen: set<string>, botPathOfKey: string, key: string, absolute: bool)
      returns (r: Result<Handle, DbError>)
      modifies this
      ensures var t := OpenTree(old(State()), home, f, atOpen, botPathOfKey, key, absolute);
              r == t.result && State() == t.effect.store && calls == old(calls) + t.effect.calls
    {
      var attempt := EnsureOpen(home, f);
      if attempt.Failure? {
        return Failure(attempt.error);
      }
      var path := ResolvePath(botPathOfKey, key, absolute);
      var mode := if path in files then ReadWrite else CreateExclusive;
      calls := calls + [OpenDb(path, mode)];
      files := atOpen;
      if mode == ReadWrite {
        r := if path in files then Success(Handle(TreeFile, path, mode)) else Failure(NoSuchFile(path));
      } else if path in files {
        r := Failure(AlreadyExists(path));
      } else {
        r := Success(Handle(TreeFile, path, mode));
        files := files + {path};
      }
    }

    /** A transaction begun through the forwarded library interface. */
    method BeginTxn()
      modifies this
      ensures env == if old(env).Some? then Some(old(env).value.(nactive := old(env).value.nactive + 1))
                     else old(env)
      ensures files == old(files) && regions == old(regions) && calls == old(calls)
    {
      if env.Some? {
        env := Some(env.value.(nactive := env.value.nactive + 1));
      }
    }

    /** A transaction committed or aborted. */
    method EndTxn()
      modifies this
      ensures env == if old(env).Some? && old(env).value.nactive > 0
                     then Some(old(env).value.(nactive := old(env).value.nactive - 1))
                     else old(env)
      ensures files == old(files) && regions == old(regions) && calls == old(calls)
    {
      if env.Some? && env.value.nactive > 0 {
        env := Some(env.value.(nactive := env.value.nactive - 1));
      }
    }

    /** The library starts a new log file; the next checkpoint frees the old ones. */
    method RollLog(log: string)
      modifies this
      ensures env == if old(env).Some? then Some(old(env).value.(pending := old(env).value.pending + [log]))
                     else old(env)
      ensures files == if old(env).Some? then old(files) + {log} else old(files)
      ensures regions == old(regions) && calls == old(calls)
    {
      if env.Some? {
        env := Some(env.value.(pending := env.value.pending + [log]));
        files := files + {log};
      }
    }

    /** DBTree.cleanup_logs. */
    method CleanupLogs(f: CleanupFaults)
      modifies this
      ensures var eff := CleanupLogsSpec(old(State()), f);
              State() == eff.store && calls == old(calls) + eff.calls
    {
      if env.None? {
        return;
      }
      ghost var s0 := State();
      calls := calls + [Checkpoint];
      if !f.checkpoint {
        env := Some(Checkpointed(env.value));
      }
      ghost var rest := CleanupLogsSecondBlock(State(), f);
      SecondBlock(f);
      assert CleanupLogsSpec(s0, f) == Effect(rest.store, [Checkpoint] + rest.calls);
      AppendAssoc(old(calls), [Checkpoint], rest.calls);
    }

    /** The second guarded block of cleanup_logs, once the checkpoint is done. */
    method SecondBlock(f: CleanupFaults)
      requires env.Some?
      modifies this
      ensures var eff := CleanupLogsSecondBlock(old(State()), f);
              State() == eff.store && calls == old(calls) + eff.calls
    {
      calls := calls + [LogFlush];
      if f.logFlush {
        return;
      }
      calls := calls + [LogArchive];
      if f.logArchive {
        return;
      }
      ghost var c0 := calls;
      ghost var purge := PurgeLogs(State());
      PurgeLogFiles();
      assert calls == c0 + purge.calls;
    }

    /** The deletion loop of cleanup_logs, over the environment's archivable logs. */
    method PurgeLogFiles()
      requires env.Some?
      modifies this
      ensures var purge := PurgeLogs(old(State()));
              State() == purge.store && calls == old(calls) + purge.calls
    {
      var logs := env.value.archivable;
      var n := DeleteLogFiles(logs);
      env := Some(env.value.(archivable := logs[n..]));
    }

    /** The `logs.each { |log| File.delete(log) }` loop of cleanup_logs. */
    method DeleteLogFiles(logs: seq<string>) returns (n: nat)
      modifies this`files, this`calls
      ensures n <= |logs|
      ensures (files, n) == DeleteLogs(old(files), logs)
      ensures calls == old(calls) + Deletes(logs[..if n < |logs| then n + 1 else n])
    {
      n := 0;
      while n < |logs|
        invariant n <= |logs|
        invariant DeleteLogs(old(files), logs).0 == DeleteLogs(files, logs[n..]).0
        invariant DeleteLogs(old(files), logs).1 == DeleteLogs(files, logs[n..]).1 + n
        invariant calls == old(calls) + Deletes(logs[..n])
      {
        DeletesSnoc(logs, n);
        calls := calls + [DeleteLog(logs[n])];
        if logs[n] !in files {
          return;
        }
        DeleteLogsStep(files, logs, n);
        files := files - {logs[n]};
        n := n + 1;
      }
    }

    /** DBTree.cleanup_env. */
    method CleanupEnv(f: CleanupFaults) returns (report: Report)
      modifies this
      ensures var (eff, rep) := CleanupEnvSpec(old(State()), f);
              State() == eff.store && calls == old(calls) + eff.calls && report == rep
    {
      if env.None? {
        return CleanupFailed;
      }
      calls := calls + [TxnStat];
      if f.txnStat {
        return CleanupFailed;
      }
      var hasActiveTxn := env.value.nactive > 0;
      var path := env.value.home;
      ghost var s0 := State();
      ghost var logs := CleanupLogsSpec(s0, f);
      CleanupLogs(f);
      ghost var (rest, rep) := CloseAndRemove(State(), hasActiveTxn, path, f);
      report := Finish(hasActiveTxn, path, f);
      assert CleanupEnvSpec(s0, f) == (Effect(rest.store, [TxnStat] + logs.calls + rest.calls), rep);
      AppendAssoc(old(calls), [TxnStat] + logs.calls, rest.calls);
      AppendAssoc(old(calls), [TxnStat], logs.calls);
    }

    /** The close and the removal that end cleanup_env. */
    method Finish(active: bool, home: string, f: CleanupFaults) returns (report: Report)
      modifies this
      ensures var (eff, rep) := CloseAndRemove(old(State()), active, home, f);
              State() == eff.store && calls == old(calls) + eff.calls && report == rep
    {
      calls := calls + [CloseEnv];
      if f.close {
        return CleanupFailed;
      }
      env := None;
      if active {
        return KeptForActiveTxns;
      }
      calls := calls + [RemoveEnv(home)];
      if f.remove {
        return CleanupFailed;
      }
      regions := regions - {home};
      return CleanedUp;
    }
  }
}
