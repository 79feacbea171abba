/**
  The states of an agent result and of the memory it owns. The class in AgentResult.dfy moves from state
  to state as `Apply` says; the theorems here are about whole runs.
*/
module ResultModel {
  type Ptr = int
  const NULL: Ptr := 0

  /** The AR_* flags; a value of the `type` field is the set of its flags. */
  datatype Flag = UINT64 | DOUBLE | STRING | TEXT | LOG | MESSAGE | META | BIN

  function Bit(f: Flag): bv8 {
    match f
    case UINT64 => 0x01
    case DOUBLE => 0x02
    case STRING => 0x04
    case TEXT => 0x08
    case LOG => 0x10
    case MESSAGE => 0x20
    case META => 0x40
    case BIN => 0x80
  }

  /** Setting or clearing one flag leaves the others alone, so sets of flags are a faithful picture. */
  lemma BitsIndependent(flags: bv8, f: Flag, g: Flag)
    ensures (flags | Bit(f)) & Bit(g) != 0 <==> f == g || flags & Bit(g) != 0
    ensures (flags & !Bit(f)) & Bit(g) != 0 <==> f != g && flags & Bit(g) != 0
  {
    match f {
      case UINT64 => case DOUBLE => case STRING => case TEXT =>
      case LOG => case MESSAGE => case META => case BIN =>
    }
  }

  /** The kinds whose value is memory that the result owns. */
  const OWNED: set<Flag> := {STRING, TEXT, LOG, MESSAGE, BIN}

  /** The pointers in a log record. */
  datatype LogRecord = LogRecord(value: Ptr, source: Ptr)

  /** The fields of the result; `live` are the blocks handed to it that have not been freed, `logs` the
      contents of the log records among them. */
  datatype State = State(
    lastlogsize: nat, mtime: int, ui64: nat, dbl: real,
    flags: set<Flag>, ptr: map<Flag, Ptr>,
    live: set<Ptr>, logs: map<Ptr, LogRecord>)

  datatype Op =
    | SetUi64(u: nat)
    | SetDbl(d: real)
    | SetMeta(lastlogsize: nat, mtime: int)
    | SetBlock(kind: Flag, block: Ptr)
    | SetLog(log: Ptr, record: LogRecord)
    | Unset(flag: Flag)
    | Excluding(kept: set<Flag>)
    | Free

  function Init(): State {
    State(0, 0, 0, 0.0, {}, map[STRING := NULL, TEXT := NULL, LOG := NULL, MESSAGE := NULL, BIN := NULL], {}, map[])
  }

  // ----- ownership

  function LogBlocks(log: Ptr, record: LogRecord): set<Ptr> {
    {log, record.value, record.source} - {NULL}
  }

  /** The blocks that the result owns through one kind. */
  function Blocks(s: State, f: Flag): set<Ptr> {
    if f !in s.flags || f !in OWNED || f !in s.ptr then {}
    else if f == LOG && s.ptr[LOG] in s.logs then LogBlocks(s.ptr[LOG], s.logs[s.ptr[LOG]])
    else {s.ptr[f]} - {NULL}
  }

  function Owned(s: State): set<Ptr> {
    Blocks(s, STRING) + Blocks(s, TEXT) + Blocks(s, LOG) + Blocks(s, MESSAGE) + Blocks(s, BIN)
  }

  predicate DistinctBlocks(log: Ptr, record: LogRecord) {
    log != NULL && log != record.value && log != record.source &&
    (record.value == record.source ==> record.value == NULL)
  }

  /** Each pointer is set exactly while its flag is. */
  ghost predicate PointersSound(s: State) {
    && s.ptr.Keys == OWNED
    && (forall f :: f in OWNED ==> (f in s.flags <==> s.ptr[f] != NULL))
    && (LOG in s.flags ==> s.ptr[LOG] in s.logs && DistinctBlocks(s.ptr[LOG], s.logs[s.ptr[LOG]]))
  }

  /** What a kind owns is live and belongs to no other kind. */
  ghost predicate BlocksSound(s: State) {
    && (forall f :: Blocks(s, f) <= s.live)
    && (forall f, g :: f != g ==> Blocks(s, f) !! Blocks(s, g))
  }

  ghost predicate Sound(s: State) {
    PointersSound(s) && BlocksSound(s)
  }

  /** What the setters demand: newly allocated memory. */
  predicate Allowed(s: State, op: Op) {
    match op
    case SetBlock(kind, p) => kind in OWNED && kind != LOG && p != NULL && p !in s.live
    case SetLog(p, record) => DistinctBlocks(p, record) && LogBlocks(p, record) !! s.live
    case Unset(f) => f != META
    case _ => true
  }

  // ----- the steps

  function UnsetOne(s: State, f: Flag): State {
    if f == UINT64 then s.(flags := s.flags - {UINT64}, ui64 := 0)
    else if f == DOUBLE then s.(flags := s.flags - {DOUBLE}, dbl := 0.0)
    else if f in s.flags then s.(flags := s.flags - {f}, ptr := s.ptr[f := NULL], live := s.live - Blocks(s, f))
    else s
  }

  function UnsetUnless(s: State, kept: set<Flag>, f: Flag): State {
    if f in kept then s else UnsetOne(s, f)
  }

  /** The kinds are unset one after the other; meta information is not among them. */
  function UnsetExcluding(s: State, kept: set<Flag>): State {
    var s := UnsetUnless(s, kept, UINT64);
    var s := UnsetUnless(s, kept, DOUBLE);
    var s := UnsetUnless(s, kept, STRING);
    var s := UnsetUnless(s, kept, TEXT);
    var s := UnsetUnless(s, kept, LOG);
    var s := UnsetUnless(s, kept, MESSAGE);
    UnsetUnless(s, kept, BIN)
  }

  function Apply(s: State, op: Op): State {
    match op
    case SetUi64(u) => s.(flags := s.flags + {UINT64}, ui64 := u)
    case SetDbl(d) => s.(flags := s.flags + {DOUBLE}, dbl := d)
    case SetMeta(l, m) => s.(flags := s.flags + {META}, lastlogsize := l, mtime := m)
    case SetBlock(kind, p) => s.(flags := s.flags + {kind}, ptr := s.ptr[kind := p], live := s.live + {p})
    case SetLog(p, record) =>
      s.(flags := s.flags + {LOG}, ptr := s.ptr[LOG := p], live := s.live + LogBlocks(p, record),
         logs := s.logs[p := record])
    case Unset(f) => UnsetOne(s, f)
    case Excluding(kept) => UnsetExcluding(s, kept)
    case Free => UnsetExcluding(s, {})
  }

  /** What a setter loses: the blocks of the value that it overwrites. */
  function Overwritten(s: State, op: Op): set<Ptr> {
    match op
    case SetBlock(kind, _) => Blocks(s, kind)
    case SetLog(_, _) => Blocks(s, LOG)
    case _ => {}
  }

  /** The setter's kind is already set. */
  predicate Overwrites(s: State, op: Op) {
    match op
    case SetBlock(kind, _) => kind in s.flags
    case SetLog(_, _) => LOG in s.flags
    case _ => false
  }

  // ----- one step

  /** `rest` is live memory that the result does not own. */
  ghost predicate Balanced(s: State, rest: set<Ptr>) {
    Sound(s) && s.live == Owned(s) + rest && Owned(s) !! rest
  }

  /** Only what the kind `f` owns differs between `s` and `t`: it is `b` in `t`. */
  ghost predicate Differs(s: State, t: State, f: Flag, b: set<Ptr>) {
    Blocks(t, f) == b && forall g :: g != f ==> Blocks(t, g) == Blocks(s, g)
  }

  lemma OwnedDiffers(s: State, t: State, f: Flag, b: set<Ptr>)
    requires BlocksSound(s) && Differs(s, t, f, b) && (f in OWNED || b == {})
    ensures Owned(t) == Owned(s) - Blocks(s, f) + b
  {
    if f in OWNED {
      hide Blocks;
    }
  }

  lemma UnsetOneLocal(s: State, f: Flag)
    requires PointersSound(s) && f != META
    ensures var t := UnsetOne(s, f);
            && PointersSound(t) && Differs(s, t, f, {})
            && t.flags == s.flags - {f} && t.live == s.live - Blocks(s, f)
  {
  }

  lemma UnsetOneBalanced(s: State, f: Flag, rest: set<Ptr>)
    requires Balanced(s, rest) && f != META
    ensures Balanced(UnsetOne(s, f), rest)
    ensures UnsetOne(s, f).flags == s.flags - {f}
    ensures Differs(s, UnsetOne(s, f), f, {})
  {
    var t := UnsetOne(s, f);
    UnsetOneLocal(s, f);
    OwnedDiffers(s, t, f, {});
    DiffersSound(s, t, f, {});
    OwnedHas(s, f);
    Arithmetic(Owned(s), rest, Blocks(s, f), {});
    hide Blocks, UnsetOne, Sound, Owned, Differs;
  }

  lemma DiffersSound(s: State, t: State, f: Flag, b: set<Ptr>)
    requires BlocksSound(s) && PointersSound(t) && Differs(s, t, f, b)
    requires b !! s.live && b <= t.live && s.live - Blocks(s, f) <= t.live
    ensures Sound(t)
  {
    hide Blocks, PointersSound;
    forall g ensures Blocks(t, g) <= t.live {
      assert Blocks(s, g) <= s.live;
    }
  }

  lemma OwnedHas(s: State, f: Flag)
    ensures Blocks(s, f) <= Owned(s)
  {
    NoBlocksElsewhere(s);
    hide Blocks;
    match f {
      case UINT64 => case DOUBLE => case STRING => case TEXT =>
      case LOG => case MESSAGE => case META => case BIN =>
    }
  }

  /** Of what is owned, `b` goes and `c` comes. */
  lemma Arithmetic(owned: set<Ptr>, rest: set<Ptr>, b: set<Ptr>, c: set<Ptr>)
    requires b <= owned && owned !! rest && c !! owned + rest
    ensures owned + rest - b + c == (owned - b + c) + rest && (owned - b + c) !! rest
    ensures owned + rest + c == (owned - b + c) + (rest + b) && (owned - b + c) !! (rest + b)
  {
  }

  lemma UnsetUnlessBalanced(s: State, kept: set<Flag>, f: Flag, rest: set<Ptr>)
    requires Balanced(s, rest) && f != META
    ensures var t := UnsetUnless(s, kept, f);
            && Balanced(t, rest)
            && t.flags == s.flags - ({f} - kept)
            && (forall g :: Blocks(t, g) == if g == f && f !in kept then {} else Blocks(s, g))
            && t.ui64 == (if f == UINT64 && f !in kept then 0 else s.ui64)
            && t.dbl == (if f == DOUBLE && f !in kept then 0.0 else s.dbl)
            && t.lastlogsize == s.lastlogsize && t.mtime == s.mtime
  {
    UnsetOneBalanced(s, f, rest);
    hide Blocks, Balanced;
  }

  /** Exactly the excluded kinds and the meta information stay; the memory of the others is given back. */
  lemma ExcludingKeeps(s: State, kept: set<Flag>, rest: set<Ptr>)
    requires Balanced(s, rest)
    ensures var t := UnsetExcluding(s, kept);
            && Balanced(t, rest)
            && t.flags == s.flags * (kept + {META})
            && (forall f :: Blocks(t, f) == if f in kept then Blocks(s, f) else {})
            && t.ui64 == (if UINT64 in kept then s.ui64 else 0)
            && t.dbl == (if DOUBLE in kept then s.dbl else 0.0)
            && t.lastlogsize == s.lastlogsize && t.mtime == s.mtime
  {
    hide Balanced, Blocks, UnsetUnless;
    var s1 := UnsetUnless(s, kept, UINT64);
    UnsetUnlessBalanced(s, kept, UINT64, rest);
    var s2 := UnsetUnless(s1, kept, DOUBLE);
    UnsetUnlessBalanced(s1, kept, DOUBLE, rest);
    var s3 := UnsetUnless(s2, kept, STRING);
    UnsetUnlessBalanced(s2, kept, STRING, rest);
    var s4 := UnsetUnless(s3, kept, TEXT);
    UnsetUnlessBalanced(s3, kept, TEXT, rest);
    var s5 := UnsetUnless(s4, kept, LOG);
    UnsetUnlessBalanced(s4, kept, LOG, rest);
    var s6 := UnsetUnless(s5, kept, MESSAGE);
    UnsetUnlessBalanced(s5, kept, MESSAGE, rest);
    UnsetUnlessBalanced(s6, kept, BIN, rest);
    NoBlocksElsewhere(s);
    var t := UnsetExcluding(s, kept);
    forall f ensures f in t.flags <==> f in s.flags && (f in kept || f == META) {
      match f {
        case UINT64 => case DOUBLE => case STRING => case TEXT =>
        case LOG => case MESSAGE => case META => case BIN =>
      }
    }
    forall f ensures Blocks(t, f) == if f in kept then Blocks(s, f) else {} {
      match f {
        case UINT64 => case DOUBLE => case STRING => case TEXT =>
        case LOG => case MESSAGE => case META => case BIN =>
      }
    }
  }

  lemma NoBlocksElsewhere(s: State)
    ensures Blocks(s, META) == Blocks(s, UINT64) == Blocks(s, DOUBLE) == {}
  {
  }

  lemma SetBlockLocal(s: State, kind: Flag, p: Ptr)
    requires PointersSound(s) && Allowed(s, SetBlock(kind, p))
    ensures var t := Apply(s, SetBlock(kind, p));
            PointersSound(t) && Differs(s, t, kind, {p}) && t.live == s.live + {p}
  {
  }

  lemma SetLogLocal(s: State, p: Ptr, record: LogRecord)
    requires PointersSound(s) && Allowed(s, SetLog(p, record))
    ensures var t := Apply(s, SetLog(p, record));
            PointersSound(t) && Differs(s, t, LOG, LogBlocks(p, record)) && t.live == s.live + LogBlocks(p, record)
  {
  }

  /** New memory in place of what the kind owned: that is still live, but no longer owned. */
  lemma ReplacedBalanced(s: State, t: State, f: Flag, b: set<Ptr>, rest: set<Ptr>)
    requires Balanced(s, rest) && PointersSound(t) && Differs(s, t, f, b) && f in OWNED
    requires b !! s.live && t.live == s.live + b
    ensures Balanced(t, rest + Blocks(s, f))
  {
    OwnedDiffers(s, t, f, b);
    DiffersSound(s, t, f, b);
    OwnedHas(s, f);
    Arithmetic(Owned(s), rest, Blocks(s, f), b);
    hide Blocks, Sound, Owned, Differs;
  }

  lemma StepBalanced(s: State, op: Op, rest: set<Ptr>)
    requires Balanced(s, rest) && Allowed(s, op)
    ensures Balanced(Apply(s, op), rest + Overwritten(s, op))
  {
    assert rest + {} == rest;
    match op
    case SetBlock(kind, p) =>
      SetBlockLocal(s, kind, p);
      ReplacedBalanced(s, Apply(s, op), kind, {p}, rest);
    case SetLog(p, record) =>
      SetLogLocal(s, p, record);
      ReplacedBalanced(s, Apply(s, op), LOG, LogBlocks(p, record), rest);
    case Unset(f) => UnsetOneBalanced(s, f, rest);
    case Excluding(kept) => ExcludingKeeps(s, kept, rest);
    case Free => ExcludingKeeps(s, {}, rest);
    case _ => assert forall f :: Blocks(Apply(s, op), f) == Blocks(s, f);
  }

  // ----- runs

  function Run(s: State, ops: seq<Op>): State
    decreases |ops|
  {
    if ops == [] then s else Run(Apply(s, ops[0]), ops[1..])
  }

  predicate RunAllowed(s: State, ops: seq<Op>)
    decreases |ops|
  {
    ops == [] || (Allowed(s, ops[0]) && RunAllowed(Apply(s, ops[0]), ops[1..]))
  }

  function Leaked(s: State, ops: seq<Op>): set<Ptr>
    decreases |ops|
  {
    if ops == [] then {} else Overwritten(s, ops[0]) + Leaked(Apply(s, ops[0]), ops[1..])
  }

  predicate NeverOverwrites(s: State, ops: seq<Op>)
    decreases |ops|
  {
    ops == [] || (!Overwrites(s, ops[0]) && NeverOverwrites(Apply(s, ops[0]), ops[1..]))
  }

  lemma {:induction false} RunBalanced(s: State, ops: seq<Op>, rest: set<Ptr>)
    requires Balanced(s, rest) && RunAllowed(s, ops)
    ensures Balanced(Run(s, ops), rest + Leaked(s, ops))
    ensures Leaked(s, ops) == {} <==> NeverOverwrites(s, ops)
    decreases |ops|
  {
    hide Balanced, Apply, Overwritten, Overwrites, Allowed;
    if ops == [] {
      assert rest + {} == rest;
    } else {
      var t, lost := Apply(s, ops[0]), Overwritten(s, ops[0]);
      StepBalanced(s, ops[0], rest);
      OverwritesLoses(s, ops[0], rest);
      RunBalanced(t, ops[1..], rest + lost);
      assert rest + lost + Leaked(t, ops[1..]) == rest + (lost + Leaked(t, ops[1..]));
    }
  }

  lemma OverwritesLoses(s: State, op: Op, rest: set<Ptr>)
    requires Balanced(s, rest) && Allowed(s, op)
    ensures Overwritten(s, op) == {} <==> !Overwrites(s, op)
  {
    match op
    case SetBlock(kind, _) => assert kind in s.flags ==> s.ptr[kind] in Blocks(s, kind);
    case SetLog(_, _) => assert LOG in s.flags ==> s.ptr[LOG] in Blocks(s, LOG);
    case _ =>
  }

  /** After any run from initialisation the live memory is what the result owns and, apart from it, what
      setters have overwritten; nothing is lost exactly when no setter meets its own flag. */
  lemma RunOwnership(ops: seq<Op>)
    requires RunAllowed(Init(), ops)
    ensures var s := Run(Init(), ops);
            && Sound(s)
            && s.live == Owned(s) + Leaked(Init(), ops) && Owned(s) !! Leaked(Init(), ops)
            && (s.live == Owned(s) <==> NeverOverwrites(Init(), ops))
  {
    assert Balanced(Init(), {});
    RunBalanced(Init(), ops, {});
    assert {} + Leaked(Init(), ops) == Leaked(Init(), ops);
  }

  lemma FreeKeepsMeta(s: State, rest: set<Ptr>)
    requires Balanced(s, rest)
    ensures var t := Apply(s, Free); t.flags == s.flags * {META} && Owned(t) == {} && t.live == rest
  {
    hide Blocks, UnsetExcluding, Sound, PointersSound, BlocksSound;
    ExcludingKeeps(s, {}, rest);
  }

  /** Freeing the result at the end of any run leaves the meta flag if it is set and no other; what is then
      still live has been overwritten before, which means nothing in a run without overwriting. */
  lemma FreeReleasesAll(ops: seq<Op>)
    requires RunAllowed(Init(), ops)
    ensures var s, t := Run(Init(), ops), Apply(Run(Init(), ops), Free);
            && t.flags == s.flags * {META}
            && Owned(t) == {} && t.live == Leaked(Init(), ops)
            && (t.live == {} <==> NeverOverwrites(Init(), ops))
  {
    RunOwnership(ops);
    assert Balanced(Init(), {});
    RunBalanced(Init(), ops, {});
    var s := Run(Init(), ops);
    hide Balanced, Sound, Run, RunAllowed, Leaked, NeverOverwrites, Apply, Owned;
    FreeKeepsMeta(s, Leaked(Init(), ops));
  }

  /** Excluding twice is excluding what both exclude. */
  lemma ExcludingTwice(s: State, kept: set<Flag>, kept': set<Flag>, rest: set<Ptr>)
    requires Balanced(s, rest)
    ensures var t, u := UnsetExcluding(UnsetExcluding(s, kept), kept'), UnsetExcluding(s, kept * kept');
            t.flags == u.flags && t.live == u.live && t.ui64 == u.ui64 && t.dbl == u.dbl &&
            forall f :: Blocks(t, f) == Blocks(u, f)
  {
    hide UnsetExcluding, Balanced, Blocks;
    ExcludingKeeps(s, kept, rest);
    ExcludingKeeps(UnsetExcluding(s, kept), kept', rest);
    ExcludingKeeps(s, kept * kept', rest);
    assert forall f :: f in kept * kept' + {META} <==> f in kept + {META} && f in kept' + {META};
    SameBlocksSameLive(UnsetExcluding(UnsetExcluding(s, kept), kept'), UnsetExcluding(s, kept * kept'), rest);
  }

  lemma SameBlocksSameLive(t: State, u: State, rest: set<Ptr>)
    requires Balanced(t, rest) && Balanced(u, rest) && forall f :: Blocks(t, f) == Blocks(u, f)
    ensures t.live == u.live
  {
    hide Blocks, Sound;
  }

  // ----- flags and values over runs

  predicate Sets(op: Op, f: Flag) {
    match op
    case SetUi64(_) => f == UINT64
    case SetDbl(_) => f == DOUBLE
    case SetMeta(_, _) => f == META
    case SetBlock(kind, _) => f == kind
    case SetLog(_, _) => f == LOG
    case _ => false
  }

  predicate Clears(op: Op, f: Flag) {
    match op
    case Unset(g) => f == g
    case Excluding(kept) => f != META && f !in kept
    case Free => f != META
    case _ => false
  }

  /** Operation `i` sets the flag and none after it clears it. */
  predicate StaysSet(ops: seq<Op>, i: nat, f: Flag) {
    i < |ops| && Sets(ops[i], f) && forall j :: i < j < |ops| ==> !Clears(ops[j], f)
  }

  lemma UnsetUnlessFlags(s: State, kept: set<Flag>, f: Flag)
    ensures UnsetUnless(s, kept, f).flags == s.flags - ({f} - kept)
    ensures UnsetUnless(s, kept, f).ui64 == if f == UINT64 && f !in kept then 0 else s.ui64
    ensures UnsetUnless(s, kept, f).dbl == if f == DOUBLE && f !in kept then 0.0 else s.dbl
    ensures forall g :: g in s.ptr && (g != f || f in kept) ==>
              g in UnsetUnless(s, kept, f).ptr && UnsetUnless(s, kept, f).ptr[g] == s.ptr[g]
    ensures var t := UnsetUnless(s, kept, f); t.lastlogsize == s.lastlogsize && t.mtime == s.mtime && t.logs == s.logs
  {
  }

  lemma ExcludingFields(s: State, kept: set<Flag>)
    ensures var t := UnsetExcluding(s, kept);
            && (forall f :: f in t.flags <==> f in s.flags && (f in kept || f == META))
            && t.ui64 == (if UINT64 in kept then s.ui64 else 0)
            && t.dbl == (if DOUBLE in kept then s.dbl else 0.0)
            && (forall f :: f in s.ptr && (f in kept || f == META) ==> f in t.ptr && t.ptr[f] == s.ptr[f])
            && t.lastlogsize == s.lastlogsize && t.mtime == s.mtime && t.logs == s.logs
  {
    hide UnsetUnless;
    var s1 := UnsetUnless(s, kept, UINT64);
    UnsetUnlessFlags(s, kept, UINT64);
    var s2 := UnsetUnless(s1, kept, DOUBLE);
    UnsetUnlessFlags(s1, kept, DOUBLE);
    var s3 := UnsetUnless(s2, kept, STRING);
    UnsetUnlessFlags(s2, kept, STRING);
    var s4 := UnsetUnless(s3, kept, TEXT);
    UnsetUnlessFlags(s3, kept, TEXT);
    var s5 := UnsetUnless(s4, kept, LOG);
    UnsetUnlessFlags(s4, kept, LOG);
    var s6 := UnsetUnless(s5, kept, MESSAGE);
    UnsetUnlessFlags(s5, kept, MESSAGE);
    UnsetUnlessFlags(s6, kept, BIN);
    var t := UnsetExcluding(s, kept);
    forall f ensures f in t.flags <==> f in s.flags && (f in kept || f == META) {
      match f {
        case UINT64 => case DOUBLE => case STRING => case TEXT =>
        case LOG => case MESSAGE => case META => case BIN =>
      }
    }
  }

  lemma StepFlags(s: State, op: Op, f: Flag)
    ensures f in Apply(s, op).flags <==> Sets(op, f) || (f in s.flags && !Clears(op, f))
  {
    match op
    case Excluding(kept) => ExcludingFields(s, kept);
    case Free => ExcludingFields(s, {});
    case _ =>
  }

  lemma {:induction false} RunFlags(s: State, ops: seq<Op>, f: Flag)
    ensures f in Run(s, ops).flags <==>
              (exists i :: StaysSet(ops, i, f)) || (f in s.flags && forall j :: 0 <= j < |ops| ==> !Clears(ops[j], f))
    decreases |ops|
  {
    hide Apply, Sets, Clears;
    if ops != [] {
      var rest := ops[1..];
      StepFlags(s, ops[0], f);
      RunFlags(Apply(s, ops[0]), rest, f);
      forall i: nat | StaysSet(rest, i, f) ensures StaysSet(ops, i + 1, f) {
        assert forall j :: i + 1 < j < |ops| ==> ops[j] == rest[j - 1];
      }
      forall i: nat | StaysSet(ops, i, f) && i > 0 ensures StaysSet(rest, i - 1, f) {
        assert forall j :: i - 1 < j < |rest| ==> rest[j] == ops[j + 1];
      }
      assert forall j :: 0 <= j < |rest| ==> rest[j] == ops[j + 1];
      assert forall j :: 0 < j < |ops| ==> ops[j] == rest[j - 1];
      assert (forall j :: 0 <= j < |rest| ==> !Clears(rest[j], f)) <==> (forall j :: 0 < j < |ops| ==> !Clears(ops[j], f));
      assert StaysSet(ops, 0, f) <==> Sets(ops[0], f) && forall j :: 0 < j < |ops| ==> !Clears(ops[j], f);
    }
  }

  /** After a run a flag is set exactly when some operation set it that none has cleared since. */
  lemma FlaggedExactly(ops: seq<Op>, f: Flag)
    ensures f in Run(Init(), ops).flags <==> exists i :: StaysSet(ops, i, f)
  {
    RunFlags(Init(), ops, f);
  }

  predicate IsSetter(op: Op) {
    op.SetUi64? || op.SetDbl? || op.SetMeta? || op.SetBlock? || op.SetLog?
  }

  function Target(setter: Op): (f: Flag)
    requires IsSetter(setter)
    ensures Sets(setter, f)
  {
    match setter
    case SetUi64(_) => UINT64
    case SetDbl(_) => DOUBLE
    case SetMeta(_, _) => META
    case SetBlock(kind, _) => kind
    case SetLog(_, _) => LOG
  }

  /** The flag and the value that a setter stores. */
  predicate Shows(s: State, setter: Op)
    requires IsSetter(setter)
  {
    match setter
    case SetUi64(u) => UINT64 in s.flags && s.ui64 == u
    case SetDbl(d) => DOUBLE in s.flags && s.dbl == d
    case SetMeta(l, m) => META in s.flags && s.lastlogsize == l && s.mtime == m
    case SetBlock(kind, p) => kind in s.flags && kind in s.ptr && s.ptr[kind] == p
    case SetLog(p, record) => LOG in s.flags && LOG in s.ptr && s.ptr[LOG] == p && p in s.logs && s.logs[p] == record
  }

  lemma ExcludingKeepsShown(s: State, setter: Op, kept: set<Flag>)
    requires IsSetter(setter) && Shows(s, setter) && (Target(setter) in kept || Target(setter) == META)
    ensures Shows(UnsetExcluding(s, kept), setter)
  {
    ExcludingFields(s, kept);
    hide UnsetExcluding;
  }

  lemma StepKeepsShown(s: State, setter: Op, op: Op)
    requires IsSetter(setter) && Shows(s, setter) && !Sets(op, Target(setter)) && !Clears(op, Target(setter))
    ensures Shows(Apply(s, op), setter)
  {
    match op
    case Excluding(kept) => ExcludingKeepsShown(s, setter, kept);
    case Free => ExcludingKeepsShown(s, setter, {});
    case _ =>
  }

  lemma {:induction false} RunKeepsShown(s: State, setter: Op, ops: seq<Op>)
    requires IsSetter(setter) && Shows(s, setter)
    requires forall j :: 0 <= j < |ops| ==> !Sets(ops[j], Target(setter)) && !Clears(ops[j], Target(setter))
    ensures Shows(Run(s, ops), setter)
    decreases |ops|
  {
    hide Shows, Apply, Sets, Clears, Target;
    if ops != [] {
      StepKeepsShown(s, setter, ops[0]);
      RunKeepsShown(Apply(s, ops[0]), setter, ops[1..]);
    }
  }

  /** After a run the result shows the value of each setter that no later operation replaced or unset. */
  lemma {:induction false} LastSetterShows(s: State, ops: seq<Op>, i: nat)
    requires i < |ops| && IsSetter(ops[i])
    requires forall j :: i < j < |ops| ==> !Sets(ops[j], Target(ops[i])) && !Clears(ops[j], Target(ops[i]))
    ensures Shows(Run(s, ops), ops[i])
    decreases |ops|
  {
    if i == 0 {
      assert Shows(Apply(s, ops[0]), ops[0]);
      hide Shows, Apply, Sets, Clears, Target;
      RunKeepsShown(Apply(s, ops[0]), ops[0], ops[1..]);
    } else {
      hide Shows, Apply, Sets, Clears, Target;
      LastSetterShows(Apply(s, ops[0]), ops[1..], i - 1);
    }
  }

  /** Numbers are zero while they are not flagged. */
  lemma {:induction false} UnflaggedIsZero(s: State, ops: seq<Op>)
    requires (UINT64 !in s.flags ==> s.ui64 == 0) && (DOUBLE !in s.flags ==> s.dbl == 0.0)
    ensures var t := Run(s, ops);
            (UINT64 !in t.flags ==> t.ui64 == 0) && (DOUBLE !in t.flags ==> t.dbl == 0.0)
    decreases |ops|
  {
    if ops != [] {
      match ops[0] {
        case Excluding(kept) => ExcludingFields(s, kept);
        case Free => ExcludingFields(s, {});
        case _ =>
      }
      hide UnsetExcluding;
      UnflaggedIsZero(Apply(s, ops[0]), ops[1..]);
    }
  }
}
