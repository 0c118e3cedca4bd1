/**
  The file sink: messages are written to staged files in a temporary directory; a commit moves them to the target
  directory, a rollback removes them. A file is a list of messages, named by its creation time.
*/
module FileSink {
  import opened Wrappers

  const MAX_FRAME_LENGTH := 15_000_000

  datatype Msg = Msg(id: nat, len: nat)

  type Files = map<nat, seq<Msg>>

  datatype ActiveSink = ActiveSink(name: nat, size: nat)

  function Size(ms: seq<Msg>): nat {
    if ms == [] then 0 else Size(ms[..|ms| - 1]) + ms[|ms| - 1].len
  }

  /** The messages of the named files, in order. */
  function Contents(files: Files, names: seq<nat>): seq<Msg> {
    if names == [] then []
    else
      var n := |names| - 1;
      Contents(files, names[..n]) + if names[n] in files then files[names[n]] else []
  }

  lemma {:induction false} ContentsSame(files: Files, files': Files, names: seq<nat>)
    requires forall n <- names :: n in files && n in files' && files[n] == files'[n]
    ensures Contents(files, names) == Contents(files', names)
    decreases |names|
  {
    if names != [] { ContentsSame(files, files', names[..|names| - 1]); }
  }

  lemma ContentsNext(files: Files, names: seq<nat>, name: nat)
    requires name in files
    ensures Contents(files, names + [name]) == Contents(files, names) + files[name]
  {
    assert (names + [name])[..|names|] == names;
  }

  lemma TakeNext(names: seq<nat>, i: nat)
    requires i < |names|
    ensures names[..i + 1] == names[..i] + [names[i]]
  {}

  predicate Distinct(names: seq<nat>) {
    names == [] || (Distinct(names[..|names| - 1]) && names[|names| - 1] !in names[..|names| - 1])
  }

  lemma {:induction false} DistinctPrefix(names: seq<nat>, i: nat)
    requires Distinct(names) && i <= |names|
    ensures Distinct(names[..i]) && (i < |names| ==> names[i] !in names[..i])
    decreases |names|
  {
    if i == |names| {
      assert names[..i] == names;
    } else if i < |names| - 1 {
      DistinctPrefix(names[..|names| - 1], i);
      assert names[..|names| - 1][..i] == names[..i];
    }
  }

  lemma {:induction false} DistinctConcat(a: seq<nat>, b: seq<nat>)
    requires Distinct(a) && Distinct(b) && forall n <- a :: n !in b
    ensures Distinct(a + b)
    decreases |b|
  {
    if b == [] {
      assert a + b == a;
    } else {
      assert (a + b)[..|a + b| - 1] == a + b[..|b| - 1];
      DistinctConcat(a, b[..|b| - 1]);
    }
  }

  /** A file holds at most one message, or stays below the maximum size. */
  predicate Bounded(ms: seq<Msg>, maxSize: nat) {
    |ms| <= 1 || Size(ms) < maxSize
  }

  predicate AllBounded(files: Files, maxSize: nat) {
    forall n <- files :: Bounded(files[n], maxSize)
  }

  /** Every staged file exists in the temporary directory, and nothing else does. */
  predicate StagedIs(tmp: Files, staged: seq<nat>) {
    Distinct(staged) && (forall n <- staged :: n in tmp) && (forall n <- tmp :: n in staged)
  }

  /** Every deposited file exists in the target directory, and is not staged any more. */
  predicate DepositedIs(target: Files, tmp: Files, deposited: seq<nat>) {
    Distinct(deposited) && (forall n <- deposited :: n in target) && forall n <- target :: n !in tmp
  }

  /** The active sink is the last staged file, and knows its size. */
  predicate ActiveIs(active: Option<ActiveSink>, tmp: Files, staged: seq<nat>) {
    active.Some? ==>
      && staged != [] && active.value.name == staged[|staged| - 1]
      && active.value.name in tmp && active.value.size == Size(tmp[active.value.name])
  }

  /** The two directories, the staged and deposited names and the active sink belong together. */
  predicate SinkIs(
    tmp: Files, target: Files, staged: seq<nat>, active: Option<ActiveSink>, deposited: seq<nat>, maxSize: nat)
  {
    && StagedIs(tmp, staged) && DepositedIs(target, tmp, deposited) && ActiveIs(active, tmp, staged)
    && AllBounded(tmp, maxSize) && AllBounded(target, maxSize)
  }

  function Moved(target: Files, tmp: Files, name: nat): Files {
    if name in tmp then target[name := tmp[name]] else target
  }

  /** How far a commit has come: the first `i` staged files are in the target directory. */
  ghost predicate Depositing(
    tmp0: Files, target0: Files, staged: seq<nat>, deposited0: seq<nat>, i: nat, tmp: Files, target: Files, deposited: seq<nat>)
  {
    && i <= |staged| && deposited == deposited0 + staged[..i]
    && tmp.Keys == tmp0.Keys - (set n | n in staged[..i]) && (forall n <- tmp :: tmp[n] == tmp0[n])
    && (forall n <- target0 :: n in target && target[n] == target0[n])
    && (forall n <- target :: n in target0 || n in staged[..i])
    && (forall n <- staged[..i] :: n in tmp0 && n in target && target[n] == tmp0[n])
  }

  lemma DepositNext(
    tmp0: Files, target0: Files, staged: seq<nat>, deposited0: seq<nat>, i: nat, tmp: Files, target: Files, deposited: seq<nat>)
    requires StagedIs(tmp0, staged) && DepositedIs(target0, tmp0, deposited0) && i < |staged|
    requires forall n <- staged :: n in tmp0
    requires Depositing(tmp0, target0, staged, deposited0, i, tmp, target, deposited)
    ensures staged[i] in tmp
    ensures Depositing(tmp0, target0, staged, deposited0, i + 1,
                       tmp - {staged[i]}, Moved(target, tmp, staged[i]), deposited + [staged[i]])
  {
    var name := staged[i];
    assert staged[..i + 1] == staged[..i] + [name];
    DistinctPrefix(staged, i);
    assert name in tmp0 && name !in target0;
  }

  /** Between the steps of a commit, every file is in one of the two directories. */
  lemma MidCommit(
    tmp0: Files, target0: Files, staged: seq<nat>, deposited0: seq<nat>, i: nat, tmp: Files, target: Files, deposited: seq<nat>)
    requires StagedIs(tmp0, staged) && DepositedIs(target0, tmp0, deposited0)
    requires Depositing(tmp0, target0, staged, deposited0, i, tmp, target, deposited)
    ensures DepositedIs(target, tmp, deposited) && target.Keys + tmp.Keys == target0.Keys + tmp0.Keys
  {
    DistinctPrefix(staged, i);
    DistinctConcat(deposited0, staged[..i]);
  }

  lemma AllDeposited(
    tmp0: Files, target0: Files, staged: seq<nat>, deposited0: seq<nat>, tmp: Files, target: Files, deposited: seq<nat>)
    requires StagedIs(tmp0, staged) && DepositedIs(target0, tmp0, deposited0)
    requires Depositing(tmp0, target0, staged, deposited0, |staged|, tmp, target, deposited)
    ensures tmp == map[] && DepositedIs(target, tmp, deposited)
  {
    assert staged[..|staged|] == staged;
    assert tmp.Keys == {};
    DistinctConcat(deposited0, staged);
  }

  lemma DepositedContents(
    tmp0: Files, target0: Files, staged: seq<nat>, deposited0: seq<nat>, tmp: Files, target: Files, deposited: seq<nat>)
    requires StagedIs(tmp0, staged) && DepositedIs(target0, tmp0, deposited0)
    requires Depositing(tmp0, target0, staged, deposited0, |staged|, tmp, target, deposited)
    ensures Contents(target, deposited) == Contents(target0, deposited0) + Contents(tmp0, staged)
  {
    assert staged[..|staged|] == staged;
    ContentsSame(target0, target, deposited0);
    ContentsSame(tmp0, target, staged);
    ContentsConcat(target, deposited0, staged);
  }

  lemma {:induction false} ContentsConcat(files: Files, a: seq<nat>, b: seq<nat>)
    ensures Contents(files, a + b) == Contents(files, a) + Contents(files, b)
    decreases |b|
  {
    if b == [] {
      assert a + b == a;
    } else {
      var n := |b| - 1;
      assert (a + b)[..|a| + n] == a + b[..n];
      ContentsConcat(files, a, b[..n]);
    }
  }

  /** A message that is appended to the last file is the last one of all. */
  lemma AppendLast(tmp: Files, staged: seq<nat>, m: Msg)
    requires StagedIs(tmp, staged) && staged != []
    ensures var name := staged[|staged| - 1];
            Contents(tmp[name := tmp[name] + [m]], staged) == Contents(tmp, staged) + [m]
  {
    var n := |staged| - 1;
    ContentsSame(tmp, tmp[staged[n] := tmp[staged[n]] + [m]], staged[..n]);
  }

  /** A new file is staged, and is the active one. */
  lemma StageFile(
    tmp: Files, target: Files, staged: seq<nat>, active: Option<ActiveSink>, deposited: seq<nat>, maxSize: nat, now: nat)
    requires SinkIs(tmp, target, staged, active, deposited, maxSize) && now !in tmp && now !in target
    ensures SinkIs(tmp[now := []], target, staged + [now], Some(ActiveSink(now, 0)), deposited, maxSize)
    ensures Contents(tmp[now := []], staged + [now]) == Contents(tmp, staged)
  {
    DistinctConcat(staged, [now]);
    ContentsSame(tmp, tmp[now := []], staged);
    ContentsNext(tmp[now := []], staged, now);
  }

  /** A message with room in the active file is appended to it. */
  lemma AppendFile(
    tmp: Files, target: Files, staged: seq<nat>, active: ActiveSink, deposited: seq<nat>, maxSize: nat, m: Msg)
    requires SinkIs(tmp, target, staged, Some(active), deposited, maxSize)
    requires active.size + m.len < maxSize || tmp[active.name] == []
    ensures var tmp' := tmp[active.name := tmp[active.name] + [m]];
            && SinkIs(tmp', target, staged, Some(ActiveSink(active.name, active.size + m.len)), deposited, maxSize)
            && Contents(tmp', staged) == Contents(tmp, staged) + [m]
  {
    AppendLast(tmp, staged, m);
    SizeNext(tmp[active.name], m);
  }

  lemma SizeNext(ms: seq<Msg>, m: Msg)
    ensures Size(ms + [m]) == Size(ms) + m.len
  {
    assert (ms + [m])[..|ms|] == ms;
  }

  /** Every file is where it was or has been moved to the target directory. */
  ghost predicate LeftOver(target0: Files, tmp0: Files, target: Files, tmp: Files, deposited: seq<nat>) {
    && DepositedIs(target, tmp, deposited)
    && (forall n <- tmp :: n in tmp0 && tmp[n] == tmp0[n])
    && (forall n <- target :: if n in tmp0 then target[n] == tmp0[n] else n in target0 && target[n] == target0[n])
    && (forall n <- target0 :: n in target)
    && (forall n <- tmp0 :: n in target || n in tmp)
  }

  lemma LeftOverNext(target0: Files, tmp0: Files, target: Files, tmp: Files, deposited: seq<nat>, name: nat)
    requires LeftOver(target0, tmp0, target, tmp, deposited) && name in tmp
    ensures LeftOver(target0, tmp0, Moved(target, tmp, name), tmp - {name}, deposited + [name])
  {
    DistinctConcat(deposited, [name]);
  }

  lemma LeftOverDone(target0: Files, tmp0: Files, target: Files, deposited: seq<nat>)
    requires LeftOver(target0, tmp0, target, map[], deposited)
    ensures target == target0 + tmp0
  {}

  // ---------------------------------------------------------------- history

  /** The committed and the pending messages, and the size of the active file if there is one. */
  datatype History = History(committed: seq<Msg>, pending: seq<Msg>, size: Option<nat>)

  /** The active file is closed, and with auto-commit everything pending is committed. */
  function Rolled(h: History, autoCommit: bool): History {
    if autoCommit then History(h.committed + h.pending, [], None) else h.(size := None)
  }

  /** A message of length `len` needs a new file. */
  predicate Opens(h: History, len: nat, maxSize: nat) {
    h.size.None? || maxSize <= h.size.value + len
  }

  function WithRoom(h: History, len: nat, maxSize: nat, autoCommit: bool): History {
    if h.size.None? then h.(size := Some(0))
    else if maxSize <= h.size.value + len then Rolled(h, autoCommit).(size := Some(0))
    else h
  }

  /** A frame that is too long is refused. */
  function Sent(h: History, m: Msg): History
    requires h.size.Some?
  {
    if m.len <= MAX_FRAME_LENGTH then h.(pending := h.pending + [m], size := Some(h.size.value + m.len)) else h
  }

  /** What the sink's loop waits for. */
  datatype Op = DoWrite(msg: Msg, now: nat) | DoCommit | DoRollback | DoTick(expired: bool)

  predicate OpensFile(h: History, op: Op, maxSize: nat) {
    op.DoWrite? && Opens(h, op.msg.len, maxSize)
  }

  function Advance(h: History, op: Op, maxSize: nat, autoCommit: bool): History {
    match op
    case DoWrite(m, _) => Sent(WithRoom(h, m.len, maxSize, autoCommit), m)
    case DoCommit => History(h.committed + h.pending, [], None)
    case DoRollback => History(h.committed, [], None)
    case DoTick(expired) => if h.size.Some? && expired then Rolled(h, autoCommit) else h
  }

  class Sink {
    const maxSize: nat
    const autoCommit: bool

    var tmp: Files
    var target: Files
    var staged: seq<nat>
    var active: Option<ActiveSink>

    /** The manifests of all commits so far. */
    ghost var deposited: seq<nat>

    constructor (maxSize: nat, autoCommit: bool)
      ensures Valid() && this.maxSize == maxSize && this.autoCommit == autoCommit
      ensures Committed() == [] && Pending() == [] && tmp == map[] && target == map[]
    {
      this.maxSize, this.autoCommit := maxSize, autoCommit;
      tmp, target, staged, active, deposited := map[], map[], [], None, [];
    }

    ghost predicate Valid()
      reads this
    {
      SinkIs(tmp, target, staged, active, deposited, maxSize)
    }

    /** The messages in the target directory, in manifest order. */
    ghost function Committed(): seq<Msg>
      reads this
    {
      Contents(target, deposited)
    }

    /** The messages in the staged files. */
    ghost function Pending(): seq<Msg>
      reads this
    {
      Contents(tmp, staged)
    }

    ghost function Past(): History
      reads this
    {
      History(Committed(), Pending(), if active.Some? then Some(active.value.size) else None)
    }

    predicate Unused(now: nat)
      reads this
    {
      now !in tmp && now !in target
    }

    /** A new file for a name that was not used before. */
    method NewSink(now: nat)
      requires Valid() && Unused(now)
      modifies this
      ensures Valid() && Past() == old(Past()).(size := Some(0))
      ensures active == Some(ActiveSink(now, 0)) && staged == old(staged) + [now]
      ensures target == old(target) && deposited == old(deposited) && tmp == old(tmp)[now := []]
    {
      StageFile(tmp, target, staged, active, deposited, maxSize, now);
      staged := staged + [now];
      tmp := tmp[now := []];
      active := Some(ActiveSink(now, 0));
    }

    method DepositSink(name: nat)
      modifies this
      ensures tmp == old(tmp) - {name} && target == Moved(old(target), old(tmp), name)
      ensures staged == old(staged) && active == old(active)
      ensures deposited == if name in old(tmp) then old(deposited) + [name] else old(deposited)
    {
      if name in tmp {
        target := target[name := tmp[name]];
        tmp := tmp - {name};
        deposited := deposited + [name];
      }
    }

    /** All staged files, in order, become part of what is committed. */
    method Commit() returns (manifest: seq<nat>)
      requires Valid()
      modifies this
      ensures Valid() && Committed() == old(Committed()) + old(Pending()) && Pending() == []
      ensures active == None && staged == [] && tmp == map[] && manifest == old(staged)
      ensures deposited == old(deposited) + manifest
      ensures forall n <- target :: n in old(target) || n in old(tmp)
    {
      active := None;
      var files := staged;
      staged := [];
      ghost var tmp0, target0, deposited0 := tmp, target, deposited;
      manifest := DepositEach(files);
      AllDeposited(tmp0, target0, files, deposited0, tmp, target, deposited);
      DepositedContents(tmp0, target0, files, deposited0, tmp, target, deposited);
    }

    method DepositEach(files: seq<nat>) returns (manifest: seq<nat>)
      requires StagedIs(tmp, files) && DepositedIs(target, tmp, deposited)
      modifies this
      ensures Depositing(old(tmp), old(target), files, old(deposited), |files|, tmp, target, deposited)
      ensures manifest == files && active == old(active) && staged == old(staged)
    {
      manifest := [];
      ghost var tmp0, target0, deposited0 := tmp, target, deposited;
      var i := 0;
      while i < |files|
        invariant Depositing(tmp0, target0, files, deposited0, i, tmp, target, deposited)
        invariant active == old(active) && staged == old(staged) && manifest == files[..i]
      {
        DepositNext(tmp0, target0, files, deposited0, i, tmp, target, deposited);
        TakeNext(files, i);
        DepositSink(files[i]);
        manifest := manifest + [files[i]];
        i := i + 1;
      }
    }

    /** All staged files are removed. */
    method Rollback() returns (manifest: seq<nat>)
      requires Valid()
      modifies this
      ensures Valid() && Committed() == old(Committed()) && Pending() == []
      ensures active == None && staged == [] && target == old(target) && manifest == old(staged)
    {
      active, manifest := None, [];
      var files := staged;
      staged := [];
      var i := 0;
      while i < |files|
        invariant i <= |files| && tmp.Keys == old(tmp).Keys - (set n | n in files[..i])
        invariant active == None && staged == [] && manifest == files[..i] && target == old(target) && deposited == old(deposited)
      {
        assert files[..i + 1] == files[..i] + [files[i]];
        tmp := tmp - {files[i]};
        manifest := manifest + [files[i]];
        i := i + 1;
      }
      assert files[..i] == files;
      assert tmp.Keys == {};
    }

    /** Sends a message to the active file; a frame that is too long is refused. */
    method Send(m: Msg) returns (ok: bool)
      requires Valid() && active.Some?
      requires active.value.size + m.len < maxSize || tmp[active.value.name] == []
      modifies this
      ensures Valid() && ok == (m.len <= MAX_FRAME_LENGTH)
      ensures target == old(target) && deposited == old(deposited) && staged == old(staged) && tmp.Keys == old(tmp).Keys
      ensures Past() == Sent(old(Past()), m)
    {
      ok := m.len <= MAX_FRAME_LENGTH;
      if ok {
        var name := active.value.name;
        AppendFile(tmp, target, staged, active.value, deposited, maxSize, m);
        tmp := tmp[name := tmp[name] + [m]];
        active := Some(ActiveSink(name, active.value.size + m.len));
      }
    }

    /** Makes sure that there is an active file with room for a message of length `len`. */
    method MakeRoom(len: nat, now: nat)
      requires Valid() && (Opens(Past(), len, maxSize) ==> Unused(now))
      modifies this
      ensures Valid() && active.Some?
      ensures active.value.size + len < maxSize || tmp[active.value.name] == []
      ensures Past() == WithRoom(old(Past()), len, maxSize, autoCommit)
      ensures !autoCommit ==> target == old(target)
      ensures forall n | n in tmp || n in target ::
                n in old(tmp) || n in old(target) || (n == now && Opens(old(Past()), len, maxSize))
    {
      var full := active.Some? && maxSize <= active.value.size + len;
      if full && autoCommit {
        var manifest := Commit();
      }
      if full || active.None? {
        NewSink(now);
      }
    }

    /** A message that does not fit closes the active file, and commits it with auto-commit, before it is sent to a
        new one. */
    method Write(m: Msg, now: nat) returns (ok: bool)
      requires Valid() && (Opens(Past(), m.len, maxSize) ==> Unused(now))
      modifies this
      ensures Valid() && ok == (m.len <= MAX_FRAME_LENGTH)
      ensures Past() == Sent(WithRoom(old(Past()), m.len, maxSize, autoCommit), m)
      ensures !autoCommit ==> target == old(target)
      ensures forall n | n in tmp || n in target ::
                n in old(tmp) || n in old(target) || (n == now && Opens(old(Past()), m.len, maxSize))
    {
      MakeRoom(m.len, now);
      ok := Send(m);
    }

    /** A file that is old enough is closed, and committed with auto-commit. */
    method MaybeRoll(expired: bool)
      requires Valid()
      modifies this
      ensures Valid() && Past() == if old(active).Some? && expired then Rolled(old(Past()), autoCommit) else old(Past())
      ensures !autoCommit ==> target == old(target)
      ensures forall n | n in tmp || n in target :: n in old(tmp) || n in old(target)
    {
      if active.Some? && expired {
        if autoCommit {
          var manifest := Commit();
        } else {
          active := None;
        }
      }
    }

    /** One turn of the sink's loop. */
    method Handle(op: Op)
      requires Valid() && (OpensFile(Past(), op, maxSize) ==> Unused(op.now))
      modifies this
      ensures Valid() && Past() == Advance(old(Past()), op, maxSize, autoCommit)
      ensures forall n | n in tmp || n in target ::
                n in old(tmp) || n in old(target) || (OpensFile(old(Past()), op, maxSize) && n == op.now)
    {
      match op
      case DoWrite(m, now) => var ok := Write(m, now);
      case DoCommit => var manifest := Commit();
      case DoRollback => var manifest := Rollback();
      case DoTick(expired) => MaybeRoll(expired);
    }

    /** What is on disk, at any moment, also between the steps of a commit. */
    ghost predicate OnDisk()
      reads this
    {
      DepositedIs(target, tmp, deposited) && AllBounded(tmp, maxSize) && AllBounded(target, maxSize)
    }

    method DepositAll()
      requires OnDisk()
      modifies this
      ensures OnDisk() && tmp == map[] && target == old(target) + old(tmp) && active == old(active) && staged == old(staged)
    {
      ghost var tmp0, target0 := tmp, target;
      while tmp != map[]
        invariant LeftOver(target0, tmp0, target, tmp, deposited) && active == old(active) && staged == old(staged)
        decreases |tmp|
      {
        var name :| name in tmp;
        LeftOverNext(target0, tmp0, target, tmp, deposited, name);
        DepositSink(name);
      }
      LeftOverDone(target0, tmp0, target, deposited);
    }

    /** After a restart: left-over files are deposited with auto-commit and removed without. */
    method Restart()
      requires OnDisk()
      modifies this
      ensures Valid() && tmp == map[] && active == None
      ensures target == if autoCommit then old(target) + old(tmp) else old(target)
      ensures !autoCommit ==> Committed() == old(Committed())
    {
      active, staged := None, [];
      if autoCommit {
        DepositAll();
      } else {
        while tmp != map[]
          invariant active == None && staged == [] && target == old(target) && deposited == old(deposited)
          decreases |tmp|
        {
          var name :| name in tmp;
          tmp := tmp - {name};
        }
      }
    }
  }

  // ---------------------------------------------------------------- every run

  /** What a list of operations leaves of a new sink. */
  function HistoryOf(ops: seq<Op>, maxSize: nat, autoCommit: bool): History {
    if ops == [] then History([], [], None)
    else Advance(HistoryOf(ops[..|ops| - 1], maxSize, autoCommit), ops[|ops| - 1], maxSize, autoCommit)
  }

  /** The operation at `i` opens a file. */
  predicate OpensAt(ops: seq<Op>, i: nat, maxSize: nat, autoCommit: bool)
    requires i < |ops|
  {
    OpensFile(HistoryOf(ops[..i], maxSize, autoCommit), ops[i], maxSize)
  }

  /** The clock advances from one new file to the next. */
  predicate ClockAdvances(ops: seq<Op>, maxSize: nat, autoCommit: bool) {
    forall i, j | 0 <= i < j < |ops| && OpensAt(ops, i, maxSize, autoCommit) && OpensAt(ops, j, maxSize, autoCommit) ::
      ops[i].now < ops[j].now
  }

  /** Every run of the sink leaves the committed and pending messages of its history. */
  method Replay(maxSize: nat, autoCommit: bool, ops: seq<Op>) returns (sink: Sink)
    requires ClockAdvances(ops, maxSize, autoCommit)
    ensures fresh(sink) && sink.Valid() && sink.Past() == HistoryOf(ops, maxSize, autoCommit)
  {
    sink := new Sink(maxSize, autoCommit);
    ghost var clock := 0;
    var i := 0;
    while i < |ops|
      invariant i <= |ops| && fresh(sink) && sink.Valid() && sink.autoCommit == autoCommit && sink.maxSize == maxSize
      invariant forall n | n in sink.tmp || n in sink.target :: n < clock
      invariant forall k | i <= k < |ops| && OpensAt(ops, k, maxSize, autoCommit) :: clock <= ops[k].now
      invariant sink.Past() == HistoryOf(ops[..i], maxSize, autoCommit)
    {
      assert ops[..i + 1][..i] == ops[..i];
      ghost var opens := OpensAt(ops, i, maxSize, autoCommit);
      sink.Handle(ops[i]);
      clock := if opens then ops[i].now + 1 else clock;
      i := i + 1;
    }
    assert ops[..i] == ops;
  }

  // ---------------------------------------------------------------- what every history keeps

  /** What a list of operations leaves committed and pending, when only a commit commits. */
  function Expected(ops: seq<Op>): (seq<Msg>, seq<Msg>) {
    if ops == [] then ([], [])
    else
      var n := |ops| - 1;
      var (c, p) := Expected(ops[..n]);
      match ops[n]
      case DoWrite(m, _) => (c, if m.len <= MAX_FRAME_LENGTH then p + [m] else p)
      case DoCommit => (c + p, [])
      case DoRollback => (c, [])
      case DoTick(_) => (c, p)
  }

  function Accepted(ops: seq<Op>): seq<Msg> {
    if ops == [] then []
    else
      var n := |ops| - 1;
      match ops[n]
      case DoWrite(m, _) => if m.len <= MAX_FRAME_LENGTH then Accepted(ops[..n]) + [m] else Accepted(ops[..n])
      case _ => Accepted(ops[..n])
  }

  predicate NoRollback(ops: seq<Op>) {
    forall i :: 0 <= i < |ops| ==> !ops[i].DoRollback?
  }

  /** Without auto-commit the sizes of files and the clock have no effect on what is committed. */
  lemma {:induction false} ManualHistory(ops: seq<Op>, maxSize: nat)
    ensures var h := HistoryOf(ops, maxSize, false); (h.committed, h.pending) == Expected(ops)
    decreases |ops|
  {
    if ops != [] { ManualHistory(ops[..|ops| - 1], maxSize); }
  }

  lemma AdvanceAccepts(h: History, op: Op, maxSize: nat, autoCommit: bool)
    requires !op.DoRollback?
    ensures var h' := Advance(h, op, maxSize, autoCommit);
            h'.committed + h'.pending ==
              h.committed + h.pending + if op.DoWrite? && op.msg.len <= MAX_FRAME_LENGTH then [op.msg] else []
  {}

  /** Without rollbacks exactly the accepted messages are there, in the order of the writes. */
  lemma {:induction false} NothingIsLost(ops: seq<Op>, maxSize: nat, autoCommit: bool)
    requires NoRollback(ops)
    ensures var h := HistoryOf(ops, maxSize, autoCommit); h.committed + h.pending == Accepted(ops)
    decreases |ops|
  {
    if ops != [] {
      var n := |ops| - 1;
      NothingIsLost(ops[..n], maxSize, autoCommit);
      AdvanceAccepts(HistoryOf(ops[..n], maxSize, autoCommit), ops[n], maxSize, autoCommit);
    }
  }

  /** What is committed once stays committed, whatever is rolled back later. */
  lemma {:induction false} CommittedIsKept(ops: seq<Op>, i: nat, maxSize: nat, autoCommit: bool)
    requires i <= |ops|
    ensures HistoryOf(ops[..i], maxSize, autoCommit).committed <= HistoryOf(ops, maxSize, autoCommit).committed
    decreases |ops| - i
  {
    if i == |ops| {
      assert ops[..i] == ops;
    } else {
      assert ops[..i + 1][..i] == ops[..i];
      CommittedIsKept(ops, i + 1, maxSize, autoCommit);
    }
  }

  /** With auto-commit everything pending is in the active file. */
  predicate OneFilePending(h: History, maxSize: nat) {
    match h.size
    case None => h.pending == []
    case Some(n) => n == Size(h.pending) && Bounded(h.pending, maxSize)
  }

  lemma AdvanceKeepsOneFile(h: History, op: Op, maxSize: nat)
    requires OneFilePending(h, maxSize)
    ensures OneFilePending(Advance(h, op, maxSize, true), maxSize)
  {
    if op.DoWrite? { SizeNext(WithRoom(h, op.msg.len, maxSize, true).pending, op.msg); }
  }

  /** With auto-commit a rollback loses at most the messages of one file: a single one, or less than `maxSize` bytes. */
  lemma {:induction false} RollbackLosesOneFile(ops: seq<Op>, maxSize: nat)
    ensures OneFilePending(HistoryOf(ops, maxSize, true), maxSize)
    decreases |ops|
  {
    if ops != [] {
      var n := |ops| - 1;
      RollbackLosesOneFile(ops[..n], maxSize);
      AdvanceKeepsOneFile(HistoryOf(ops[..n], maxSize, true), ops[n], maxSize);
    }
  }
}
