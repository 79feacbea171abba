/**
  AGENT_RESULT and the macros that set, unset and free its values, over a heap that knows which blocks
  are allocated. Freeing a block requires that it is: a macro that freed twice would not verify.
*/
module AgentResults {
  import opened ResultModel

  class Heap {
    /** The blocks handed to agent results that have not been freed. */
    ghost var live: set<Ptr>
    /** The contents of log records. */
    var logs: map<Ptr, LogRecord>

    constructor ()
      ensures live == {} && logs == map[]
    {
      live := {};
      logs := map[];
    }

    /** zbx_free: NULL is left alone; the caller's pointer becomes NULL. */
    method Free(p: Ptr) returns (cleared: Ptr)
      requires p != NULL ==> p in live
      modifies this`live
      ensures cleared == NULL && live == old(live) - ({p} - {NULL})
    {
      if p != NULL {
        live := live - {p};
      }
      cleared := NULL;
    }
  }

  class AgentResult {
    const heap: Heap
    var lastlogsize: nat
    var ui64: nat
    var dbl: real
    var str: Ptr
    var text: Ptr
    var msg: Ptr
    var log: Ptr
    var flags: set<Flag>
    var mtime: int
    var bin: Ptr

    ghost function State(): State
      reads this, heap
    {
      ResultModel.State(lastlogsize, mtime, ui64, dbl, flags,
                        map[STRING := str, TEXT := text, LOG := log, MESSAGE := msg, BIN := bin],
                        heap.live, heap.logs)
    }

    /** zbx_init_agent_result: all zero. */
    constructor (heap: Heap)
      requires heap.live == {} && heap.logs == map[]
      ensures this.heap == heap && State() == Init() && Sound(State())
      ensures lastlogsize == 0 && mtime == 0 && ui64 == 0 && dbl == 0.0 && flags == {}
      ensures str == NULL && text == NULL && msg == NULL && log == NULL && bin == NULL
    {
      this.heap := heap;
      lastlogsize, ui64, dbl, mtime := 0, 0, 0.0, 0;
      str, text, msg, log, bin := NULL, NULL, NULL, NULL, NULL;
      flags := {};
    }

    method SetUi64(u: nat)
      modifies this
      ensures State() == Apply(old(State()), ResultModel.SetUi64(u))
      ensures flags == old(flags) + {UINT64} && ui64 == u
    {
      flags := flags + {UINT64};
      ui64 := u;
    }

    method SetDbl(d: real)
      modifies this
      ensures State() == Apply(old(State()), ResultModel.SetDbl(d))
      ensures flags == old(flags) + {DOUBLE} && dbl == d
    {
      flags := flags + {DOUBLE};
      dbl := d;
    }

    /** There is no macro for the meta information: callers store the fields and the flag. */
    method SetMeta(lastlogsize: nat, mtime: int)
      modifies this
      ensures State() == Apply(old(State()), ResultModel.SetMeta(lastlogsize, mtime))
      ensures flags == old(flags) + {META} && this.lastlogsize == lastlogsize && this.mtime == mtime
    {
      flags := flags + {META};
      this.lastlogsize := lastlogsize;
      this.mtime := mtime;
    }

    /** The caller allocates the block that a setter is given; the two steps are one here. */
    method SetStr(block: Ptr)
      requires Allowed(State(), SetBlock(STRING, block))
      modifies this, heap
      ensures State() == Apply(old(State()), SetBlock(STRING, block))
      ensures flags == old(flags) + {STRING} && str == block && heap.live == old(heap.live) + {block}
    {
      heap.live := heap.live + {block};
      flags := flags + {STRING};
      str := block;
    }

    method SetText(block: Ptr)
      requires Allowed(State(), SetBlock(TEXT, block))
      modifies this, heap
      ensures State() == Apply(old(State()), SetBlock(TEXT, block))
      ensures flags == old(flags) + {TEXT} && text == block && heap.live == old(heap.live) + {block}
    {
      heap.live := heap.live + {block};
      flags := flags + {TEXT};
      text := block;
    }

    method SetMsg(block: Ptr)
      requires Allowed(State(), SetBlock(MESSAGE, block))
      modifies this, heap
      ensures State() == Apply(old(State()), SetBlock(MESSAGE, block))
      ensures flags == old(flags) + {MESSAGE} && msg == block && heap.live == old(heap.live) + {block}
    {
      heap.live := heap.live + {block};
      flags := flags + {MESSAGE};
      msg := block;
    }

    /** There is no macro that sets a binary value either. */
    method SetBin(block: Ptr)
      requires Allowed(State(), SetBlock(BIN, block))
      modifies this, heap
      ensures State() == Apply(old(State()), SetBlock(BIN, block))
      ensures flags == old(flags) + {BIN} && bin == block && heap.live == old(heap.live) + {block}
    {
      heap.live := heap.live + {block};
      flags := flags + {BIN};
      bin := block;
    }

    method SetLog(block: Ptr, record: LogRecord)
      requires Allowed(State(), ResultModel.SetLog(block, record))
      modifies this, heap
      ensures State() == Apply(old(State()), ResultModel.SetLog(block, record))
      ensures flags == old(flags) + {LOG} && log == block && heap.logs == old(heap.logs)[block := record]
    {
      heap.live := heap.live + LogBlocks(block, record);
      heap.logs := heap.logs[block := record];
      flags := flags + {LOG};
      log := block;
    }

    method UnsetUi64()
      modifies this
      ensures State() == Apply(old(State()), Unset(UINT64))
      ensures flags == old(flags) - {UINT64} && ui64 == 0
    {
      flags := flags - {UINT64};
      ui64 := 0;
    }

    method UnsetDbl()
      modifies this
      ensures State() == Apply(old(State()), Unset(DOUBLE))
      ensures flags == old(flags) - {DOUBLE} && dbl == 0.0
    {
      flags := flags - {DOUBLE};
      dbl := 0.0;
    }

    method UnsetStr()
      requires Sound(State())
      modifies this, heap
      ensures State() == Apply(old(State()), Unset(STRING)) && Sound(State())
      ensures flags == old(flags) - {STRING} && str == NULL && heap.live == old(heap.live - ({str} - {NULL}))
    {
      UnsetSound(State(), STRING);
      if STRING in flags {
        str := heap.Free(str);
        flags := flags - {STRING};
      }
    }

    method UnsetText()
      requires Sound(State())
      modifies this, heap
      ensures State() == Apply(old(State()), Unset(TEXT)) && Sound(State())
      ensures flags == old(flags) - {TEXT} && text == NULL && heap.live == old(heap.live - ({text} - {NULL}))
    {
      UnsetSound(State(), TEXT);
      if TEXT in flags {
        text := heap.Free(text);
        flags := flags - {TEXT};
      }
    }

    /** The record's own strings go before the record. */
    method UnsetLog()
      requires Sound(State())
      modifies this, heap
      ensures State() == Apply(old(State()), Unset(LOG)) && Sound(State())
      ensures flags == old(flags) - {LOG} && log == NULL
      ensures LOG in old(flags) ==> heap.live == old(heap.live) - LogBlocks(old(log), old(heap.logs[log]))
      ensures LOG !in old(flags) ==> heap.live == old(heap.live)
    {
      UnsetSound(State(), LOG);
      if LOG in flags {
        var record := heap.logs[log];
        var _ := heap.Free(record.source);
        var _ := heap.Free(record.value);
        log := heap.Free(log);
        flags := flags - {LOG};
      }
    }

    method UnsetMsg()
      requires Sound(State())
      modifies this, heap
      ensures State() == Apply(old(State()), Unset(MESSAGE)) && Sound(State())
      ensures flags == old(flags) - {MESSAGE} && msg == NULL && heap.live == old(heap.live - ({msg} - {NULL}))
    {
      UnsetSound(State(), MESSAGE);
      if MESSAGE in flags {
        msg := heap.Free(msg);
        flags := flags - {MESSAGE};
      }
    }

    method UnsetBin()
      requires Sound(State())
      modifies this, heap
      ensures State() == Apply(old(State()), Unset(BIN)) && Sound(State())
      ensures flags == old(flags) - {BIN} && bin == NULL && heap.live == old(heap.live - ({bin} - {NULL}))
    {
      UnsetSound(State(), BIN);
      if BIN in flags {
        bin := heap.Free(bin);
        flags := flags - {BIN};
      }
    }

    /** One line of the macro below. */
    method UnsetIfNotKept(kept: set<Flag>, f: Flag)
      requires Sound(State()) && f != META
      modifies this, heap
      ensures State() == UnsetUnless(old(State()), kept, f) && Sound(State())
    {
      UnsetSound(State(), f);
      hide Sound, UnsetOne;
      if f !in kept {
        match f {
          case UINT64 => UnsetUi64();
          case DOUBLE => UnsetDbl();
          case STRING => UnsetStr();
          case TEXT => UnsetText();
          case LOG => UnsetLog();
          case MESSAGE => UnsetMsg();
          case BIN => UnsetBin();
        }
      }
    }

    method UnsetExcluding(kept: set<Flag>)
      requires Sound(State())
      modifies this, heap
      ensures State() == Apply(old(State()), Excluding(kept)) && Sound(State())
    {
      hide Sound, UnsetUnless;
      UnsetIfNotKept(kept, UINT64);
      UnsetIfNotKept(kept, DOUBLE);
      UnsetIfNotKept(kept, STRING);
      UnsetIfNotKept(kept, TEXT);
      UnsetIfNotKept(kept, LOG);
      UnsetIfNotKept(kept, MESSAGE);
      UnsetIfNotKept(kept, BIN);
    }

    method Free()
      requires Sound(State())
      modifies this, heap
      ensures State() == Apply(old(State()), ResultModel.Free) && Sound(State())
    {
      hide Sound, PointersSound, BlocksSound, UnsetOne, Blocks, Owned;
      UnsetSound(State(), UINT64);
      UnsetUi64();
      UnsetSound(State(), DOUBLE);
      UnsetDbl();
      UnsetStr();
      UnsetText();
      UnsetLog();
      UnsetMsg();
      UnsetBin();
    }
  }

  lemma UnsetSound(s: State, f: Flag)
    requires Sound(s) && f != META
    ensures Sound(UnsetOne(s, f))
  {
    OwnedWithin(s);
    UnsetOneBalanced(s, f, s.live - Owned(s));
  }

  lemma OwnedWithin(s: State)
    requires Sound(s)
    ensures Owned(s) <= s.live
  {
    assert forall f :: Blocks(s, f) <= s.live;
    hide Blocks;
  }

  /** A setter keeps the result sound, whether or not it overwrites. */
  lemma ApplySound(s: State, op: Op)
    requires Sound(s) && Allowed(s, op)
    ensures Sound(Apply(s, op))
  {
    OwnedWithin(s);
    StepBalanced(s, op, s.live - Owned(s));
  }

  /** Every run of the macros whose setters get newly allocated memory goes through the states of the
      model: with RunOwnership, no block is freed twice and none is lost unless overwritten. */
  method Execute(r: AgentResult, ops: seq<Op>)
    requires Sound(r.State()) && RunAllowed(r.State(), ops)
    modifies r, r.heap
    ensures Sound(r.State()) && r.State() == Run(old(r.State()), ops)
    decreases |ops|
  {
    hide Sound, Apply, Allowed;
    if ops != [] {
      Perform(r, ops[0]);
      Execute(r, ops[1..]);
    }
  }

  method Perform(r: AgentResult, op: Op)
    requires Sound(r.State()) && Allowed(r.State(), op)
    modifies r, r.heap
    ensures Sound(r.State()) && r.State() == Apply(old(r.State()), op)
  {
    ApplySound(r.State(), op);
    hide Sound, Apply;
    match op
    case SetUi64(u) => r.SetUi64(u);
    case SetDbl(d) => r.SetDbl(d);
    case SetMeta(l, m) => r.SetMeta(l, m);
    case SetBlock(kind, p) =>
      if kind == STRING { r.SetStr(p); }
      else if kind == TEXT { r.SetText(p); }
      else if kind == MESSAGE { r.SetMsg(p); }
      else { r.SetBin(p); }
    case SetLog(p, record) => r.SetLog(p, record);
    case Unset(f) =>
      match f {
        case UINT64 => r.UnsetUi64();
        case DOUBLE => r.UnsetDbl();
        case STRING => r.UnsetStr();
        case TEXT => r.UnsetText();
        case LOG => r.UnsetLog();
        case MESSAGE => r.UnsetMsg();
        case BIN => r.UnsetBin();
      }
    case Excluding(kept) => r.UnsetExcluding(kept);
    case Free => r.Free();
  }
}
