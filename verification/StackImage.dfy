/**
 The initial stack of a new process, as build_new_process_init_values in system/process.c lays it out:
 four words, the argument pointers, the capability pairs, and the argument strings, written from the
 top down into one page. The image is proved readable as the new process will read it.
 */
module StackImage {
  import opened Machine
  import opened ByteOrder

  const MAX_ARG_COUNT: nat := 512
  const MAX_STACK_VALUE_COUNT: nat := 16384
  const STATIC_VALUE_COUNT: nat := 4

  /** An entry of argv; the source also accepts null ones. */
  datatype Arg = Null | Str(chars: seq<byte>)

  datatype Cap = Cap(id: u64, cookie: u64)

  /** The capability table: `count` entries that are there, or a null pointer with a count. */
  datatype Caps = Table(caps: seq<Cap>) | NoTable(count: nat)

  function CapCount(c: Caps): nat {
    match c
    case Table(caps) => |caps|
    case NoTable(n) => n
  }

  /** What strnlen and strncpy keep of an argument: at most 255 characters. */
  function Kept(chars: seq<byte>): (k: seq<byte>)
    ensures |k| <= 255
  {
    if |chars| <= 255 then chars else chars[..255]
  }

  /** The first 255 characters, or all if there are fewer. */
  lemma KeptExactly(chars: seq<byte>)
    ensures Kept(chars) <= chars && |Kept(chars)| == if |chars| < 255 then |chars| else 255
  {
  }

  /** The bytes written for an argument. */
  function ArgBytes(a: Arg): (b: seq<byte>)
    ensures 1 <= |b| <= 256
  {
    match a
    case Null => [0]
    case Str(chars) => Kept(chars) + [0]
  }

  /** The bytes counted for an argument: nothing for a null one. */
  function Counted(args: seq<Arg>): nat {
    if args == [] then 0 else Counted(args[1..]) + if args[0].Null? then 0 else |ArgBytes(args[0])|
  }

  /** The string data from argument `i` on. */
  function Strings(args: seq<Arg>, i: nat): (b: seq<byte>)
    requires i <= |args|
    decreases |args| - i
  {
    if i == |args| then [] else ArgBytes(args[i]) + Strings(args, i + 1)
  }

  /** round_up_to_machine_word_size, in words. */
  function Words(n: nat): (w: nat)
    ensures n <= 8 * w < n + 8
  {
    (n + 7) / 8
  }

  function ValueCount(args: seq<Arg>, caps: Caps): nat {
    Words(Counted(args)) + 2 * CapCount(caps) + |args| + STATIC_VALUE_COUNT
  }

  function AlignedCount(v: nat): nat {
    if v % 2 == 1 then v + 1 else v
  }

  /** The calls that are answered with true, if their two pages can be mapped. */
  predicate Accepted(args: seq<Arg>, caps: Caps) {
    var v := ValueCount(args, caps);
    |args| <= MAX_ARG_COUNT && v <= MAX_STACK_VALUE_COUNT && AlignedCount(v) / 512 <= 1
  }

  // ---------------------------------------------------------------------------------------
  // Where the downward writes end
  // ---------------------------------------------------------------------------------------

  /** The words that the writes really take. */
  function Taken(args: seq<Arg>, caps: Caps): nat {
    Words(|Strings(args, 0)|) + (if caps.Table? then 2 * |caps.caps| else 0) + |args| + STATIC_VALUE_COUNT
  }

  /** The word at which the writes end; negative means below the buffer. */
  function EndWord(args: seq<Arg>, caps: Caps): int {
    ValueCount(args, caps) - Taken(args, caps)
  }

  function Nulls(args: seq<Arg>): nat {
    if args == [] then 0 else Nulls(args[1..]) + if args[0].Null? then 1 else 0
  }

  lemma {:induction false} StringsLength(args: seq<Arg>, i: nat)
    requires i <= |args|
    ensures |Strings(args, i)| == Counted(args[i..]) + Nulls(args[i..])
    decreases |args| - i
  {
    if i < |args| {
      assert args[i..][1..] == args[i + 1..];
      StringsLength(args, i + 1);
    }
  }

  /** The words by which null arguments exceed what was counted for them. */
  function Excess(args: seq<Arg>): (n: nat) {
    Words(Counted(args) + Nulls(args)) - Words(Counted(args))
  }

  /** The words that are counted for a capability table that is not there. */
  function Missing(caps: Caps): nat {
    if caps.NoTable? then 2 * caps.count else 0
  }

  /** Where the writes end, for every call; so they end at word 0 exactly when the two effects cancel out. */
  lemma {:induction false} LandsExactly(args: seq<Arg>, caps: Caps)
    ensures EndWord(args, caps) == Missing(caps) - Excess(args)
    ensures EndWord(args, caps) == 0 <==> Missing(caps) == Excess(args)
  {
    StringsLength(args, 0);
    assert args[0..] == args;
  }

  lemma {:induction false} NoNulls(args: seq<Arg>)
    requires forall i :: 0 <= i < |args| ==> args[i].Str?
    ensures Nulls(args) == 0
  {
    if args != [] { NoNulls(args[1..]); }
  }

  /** A null table with a count leaves that many pairs of words unwritten at the bottom. */
  lemma {:induction false} NullTableMisses(args: seq<Arg>, count: nat)
    ensures EndWord(args, NoTable(count)) == EndWord(args, Table([])) + 2 * count
  {
    LandsExactly(args, NoTable(count));
    LandsExactly(args, Table([]));
  }

  /** Eight null arguments alone make the writes end one word below the buffer. */
  lemma {:induction false} NullArgumentsUnderflow()
    ensures Accepted(seq(8, _ => Null), Table([])) && EndWord(seq(8, _ => Null), Table([])) == -1
  {
    var args := seq(8, _ => Null);
    AllNull(args);
    LandsExactly(args, Table([]));
  }

  /** Sixteen null arguments and a null table of one capability cancel out. */
  lemma {:induction false} EffectsCancel()
    ensures Accepted(seq(16, _ => Null), NoTable(1)) && EndWord(seq(16, _ => Null), NoTable(1)) == 0
  {
    var args := seq(16, _ => Null);
    AllNull(args);
    LandsExactly(args, NoTable(1));
  }

  lemma {:induction false} AllNull(args: seq<Arg>)
    requires forall i :: 0 <= i < |args| ==> args[i] == Null
    ensures Nulls(args) == |args| && Counted(args) == 0
  {
    if args != [] { AllNull(args[1..]); }
  }

  /** Which value counts the size tests admit. */
  lemma {:induction false} AdmittedCounts(args: seq<Arg>, caps: Caps)
    ensures Accepted(args, caps) <==> |args| <= 512 && ValueCount(args, caps) <= 1022
  {
  }

  /** Byte `k` of the buffer is written by the call; negative numbers are below the buffer. */
  predicate Written(args: seq<Arg>, caps: Caps, k: int) {
    8 * EndWord(args, caps) <= k < 8 * ValueCount(args, caps)
  }

  /** A call stays inside its one mapped page exactly when it needs at most 512 words and ends no lower than word 0. */
  lemma {:induction false} PageExactly(args: seq<Arg>, caps: Caps)
    ensures (forall k :: Written(args, caps, k) ==> 0 <= k < PAGE_SIZE) <==>
      ValueCount(args, caps) <= 512 && EndWord(args, caps) >= 0
  {
    assert Written(args, caps, 8 * EndWord(args, caps));
    assert Written(args, caps, 8 * ValueCount(args, caps) - 1);
  }

  /** An admitted call that needs more than the page. */
  lemma {:induction false} OverflowAccepted()
    ensures exists caps :: Accepted([], caps) && ValueCount([], caps) > 512
  {
    var caps := Table(seq(300, _ => Cap(0, 0)));
    assert ValueCount([], caps) == 604;
  }

  // ---------------------------------------------------------------------------------------
  // The image
  // ---------------------------------------------------------------------------------------

  /** Offset in the image of the string of argument `i`. */
  function StringAt(args: seq<Arg>, v: nat, i: nat): int
    requires i <= |args|
  {
    8 * v - |Strings(args, i)|
  }

  /** The pointer stored for argument `i`; for a null one, what the buffer happened to hold. */
  function Pointer(args: seq<Arg>, v: nat, bottom: nat, stale: seq<nat>, i: nat): nat
    requires i < |args| <= |stale| && |Strings(args, 0)| <= 8 * v
  {
    SuffixFits(args, i);
    if args[i].Null? then stale[i] else bottom + StringAt(args, v, i)
  }

  lemma {:induction false} SuffixFits(args: seq<Arg>, i: nat)
    requires i <= |args|
    ensures |Strings(args, i)| <= |Strings(args, 0)|
  {
    if i > 0 { SuffixFits(args, i - 1); }
  }

  function PointerBytes(ptrs: seq<nat>, i: nat): (b: seq<byte>)
    requires i <= |ptrs|
    ensures |b| == 8 * (|ptrs| - i)
    decreases |ptrs| - i
  {
    if i == |ptrs| then [] else Encode(ptrs[i], LONG) + PointerBytes(ptrs, i + 1)
  }

  function CapBytes(caps: seq<Cap>, i: nat): (b: seq<byte>)
    requires i <= |caps|
    ensures |b| == 16 * (|caps| - i)
    decreases |caps| - i
  {
    if i == |caps| then [] else Encode(caps[i].id, LONG) + Encode(caps[i].cookie, LONG) + CapBytes(caps, i + 1)
  }

  /** The string area with the zeros that fill its first word. */
  function StringArea(args: seq<Arg>): (b: seq<byte>)
    ensures |b| == 8 * Words(|Strings(args, 0)|)
  {
    Padding(args) + Strings(args, 0)
  }

  function Padding(args: seq<Arg>): (b: seq<byte>)
    ensures |b| + |Strings(args, 0)| == 8 * Words(|Strings(args, 0)|)
  {
    Zeros(8 * Words(|Strings(args, 0)|) - |Strings(args, 0)|)
  }

  function CapArea(caps: Caps): seq<byte> {
    if caps.Table? then CapBytes(caps.caps, 0) else []
  }

  /** Everything above the four fixed words. */
  function Upper(args: seq<Arg>, caps: Caps, ptrs: seq<nat>): seq<byte> {
    PointerBytes(ptrs, 0) + (CapArea(caps) + StringArea(args))
  }

  /** The address stored for the capability table. */
  function CapPointer(args: seq<Arg>, caps: Caps, bottom: nat, v: nat): int {
    if caps.Table? && |caps.caps| > 0 then bottom + 8 * v - |CapArea(caps) + StringArea(args)| else 0
  }

  function ArgvPointer(args: seq<Arg>, caps: Caps, ptrs: seq<nat>, bottom: nat, v: nat): int {
    bottom + 8 * v - |Upper(args, caps, ptrs)|
  }

  /** Four words: the capability count and pointer, the argument count and pointer. */
  function Fixed(capc: nat, capv: nat, argc: nat, argv: nat): (b: seq<byte>)
    ensures |b| == 32
  {
    Encode(capc, LONG) + (Encode(capv, LONG) + (Encode(argc, LONG) + Encode(argv, LONG)))
  }

  // ---------------------------------------------------------------------------------------
  // The downward writes
  // ---------------------------------------------------------------------------------------

  /** Nothing outside [lo, hi) has changed. */
  ghost predicate Outside(before: seq<byte>, after: seq<byte>, lo: int, hi: int) {
    |after| == |before| && forall k :: 0 <= k < |before| && !(lo <= k < hi) ==> after[k] == before[k]
  }

  /** Stores `b` just below offset `p`, byte by byte; what lies above stays. */
  method PushBytes(a: array<byte>, p: nat, b: seq<byte>, ghost end: nat) returns (q: nat)
    requires |b| <= p <= end <= a.Length
    modifies a
    ensures q == p - |b| && a[q..end] == b + old(a[p..end]) && Outside(old(a[..]), a[..], q, p)
  {
    var base := p - |b|;
    q := p;
    while q > base
      invariant base <= q <= p
      invariant forall k :: q <= k < p ==> a[k] == b[k - base]
      invariant forall k :: 0 <= k < a.Length && !(q <= k < p) ==> a[k] == old(a[k])
    {
      q := q - 1;
      a[q] := b[q - base];
    }
  }

  /** One argument: its string and terminator, and its address; a null one leaves its pointer alone. */
  method PushArg(a: array<byte>, p: nat, arg: Arg, shift: int, ptrs: array<nat>, i: nat, ghost end: nat)
    returns (q: nat)
    requires |ArgBytes(arg)| <= p <= end <= a.Length && i < ptrs.Length && shift + p - |ArgBytes(arg)| >= 0
    modifies a, ptrs
    ensures q == p - |ArgBytes(arg)| && a[q..end] == ArgBytes(arg) + old(a[p..end])
    ensures Outside(old(a[..]), a[..], q, p)
    ensures ptrs[..] == if arg.Null? then old(ptrs[..]) else old(ptrs[..])[i := shift + q]
  {
    match arg
    case Null =>
      q := PushBytes(a, p, [0], end);
    case Str(chars) =>
      q := PushBytes(a, p, Kept(chars) + [0], end);
      ptrs[i] := shift + q;
  }

  /**
   The string loop, last argument first. The strings end at offset `end` of the memory; an offset and
   the address that the new process will see differ by `shift`.
   */
  method PushStrings(
    a: array<byte>, args: seq<Arg>, end: nat, shift: int, ptrs: array<nat>, ghost v: nat, ghost bottom: nat)
    returns (p: nat)
    requires |Strings(args, 0)| <= end <= a.Length && |args| <= ptrs.Length
    requires |Strings(args, 0)| <= 8 * v && shift + end == bottom + 8 * v
    modifies a, ptrs
    ensures p == end - |Strings(args, 0)| && a[p..end] == Strings(args, 0) && Outside(old(a[..]), a[..], p, end)
    ensures Pointed(args, v, bottom, old(ptrs[..]), ptrs[..], 0)
  {
    p := end;
    var i: nat := |args|;
    ghost var stale, before := ptrs[..], a[..];
    while i > 0
      invariant i <= |args| && p == end - |Strings(args, i)| && a[p..end] == Strings(args, i)
      invariant Outside(before, a[..], p, end) && Pointed(args, v, bottom, stale, ptrs[..], i)
    {
      i := i - 1;
      SuffixFits(args, i);
      ghost var pointers := ptrs[..];
      p := PushArg(a, p, args[i], shift, ptrs, i, end);
      PointedNext(args, v, bottom, stale, pointers, i, ptrs[..]);
    }
  }

  /** Pointers from `i` on are set; the others are as they were. */
  ghost predicate Pointed(args: seq<Arg>, v: nat, bottom: nat, stale: seq<nat>, ptrs: seq<nat>, i: nat)
    requires |Strings(args, 0)| <= 8 * v
  {
    && |args| <= |stale| == |ptrs|
    && forall k :: 0 <= k < |args| ==> ptrs[k] == if k < i then stale[k] else Pointer(args, v, bottom, stale, k)
  }

  lemma {:induction false} PointedNext(args: seq<Arg>, v: nat, bottom: nat, stale: seq<nat>, before: seq<nat>, i: nat,
    after: seq<nat>)
    requires |Strings(args, 0)| <= 8 * v && i < |args| && Pointed(args, v, bottom, stale, before, i + 1)
    requires StringAt(args, v, i) >= 0
    requires after == if args[i].Null? then before else before[i := bottom + StringAt(args, v, i)]
    ensures Pointed(args, v, bottom, stale, after, i)
  {
  }

  method PushCaps(a: array<byte>, p0: nat, caps: seq<Cap>, ghost end: nat) returns (p: nat)
    requires 16 * |caps| <= p0 <= end <= a.Length
    modifies a
    ensures p == p0 - 16 * |caps| && a[p..end] == CapBytes(caps, 0) + old(a[p0..end])
    ensures Outside(old(a[..]), a[..], p, p0)
  {
    p := p0;
    ghost var above, before := a[p0..end], a[..];
    var i: nat := |caps|;
    while i > 0
      invariant i <= |caps| && p == p0 - 16 * (|caps| - i) && a[p..end] == CapBytes(caps, i) + above
      invariant Outside(before, a[..], p, p0)
    {
      i := i - 1;
      p := PushBytes(a, p, Encode(caps[i].cookie, LONG), end);
      p := PushBytes(a, p, Encode(caps[i].id, LONG), end);
      Regroup(Encode(caps[i].id, LONG), Encode(caps[i].cookie, LONG), CapBytes(caps, i + 1), above);
    }
  }

  lemma {:induction false} Regroup<T>(a: seq<T>, b: seq<T>, c: seq<T>, d: seq<T>)
    ensures a + (b + (c + d)) == a + b + c + d
  {
  }

  method PushPointers(a: array<byte>, p0: nat, ptrs: seq<nat>, ghost end: nat) returns (p: nat)
    requires 8 * |ptrs| <= p0 <= end <= a.Length
    modifies a
    ensures p == p0 - 8 * |ptrs| && a[p..end] == PointerBytes(ptrs, 0) + old(a[p0..end])
    ensures Outside(old(a[..]), a[..], p, p0)
  {
    p := p0;
    ghost var above, before := a[p0..end], a[..];
    var i: nat := |ptrs|;
    while i > 0
      invariant i <= |ptrs| && p == p0 - 8 * (|ptrs| - i) && a[p..end] == PointerBytes(ptrs, i) + above
      invariant Outside(before, a[..], p, p0)
    {
      i := i - 1;
      p := PushBytes(a, p, Encode(ptrs[i], LONG), end);
      Assoc(Encode(ptrs[i], LONG), PointerBytes(ptrs, i + 1), above);
    }
  }

  /** The zeros that bring the pointer down to a word boundary. */
  method PushPadding(a: array<byte>, p: nat, ghost args: seq<Arg>, ghost end: nat) returns (q: nat)
    requires |StringArea(args)| <= end <= a.Length && end % 8 == 0
    requires p == end - |Strings(args, 0)| && a[p..end] == Strings(args, 0)
    modifies a
    ensures q == end - |StringArea(args)| && a[q..end] == StringArea(args) && Outside(old(a[..]), a[..], q, p)
  {
    var padding := p % 8;
    assert padding == 8 * Words(|Strings(args, 0)|) - |Strings(args, 0)|;
    q := PushBytes(a, p, Zeros(padding), end);
  }

  /** The capability pairs and the argument pointers, below the string area. */
  method PushTables(a: array<byte>, p0: nat, args: seq<Arg>, caps: Caps, ptrs: seq<nat>, end: nat)
    returns (p: nat, c: nat)
    requires |StringArea(args)| <= |Upper(args, caps, ptrs)| <= end <= a.Length
    requires p0 == end - |StringArea(args)| && a[p0..end] == StringArea(args)
    modifies a
    ensures c == end - |CapArea(caps) + StringArea(args)|
    ensures p == end - |Upper(args, caps, ptrs)| && a[p..end] == Upper(args, caps, ptrs)
    ensures Outside(old(a[..]), a[..], p, p0)
  {
    c := p0;
    if caps.Table? {
      c := PushCaps(a, c, caps.caps, end);
    }
    assert a[c..end] == CapArea(caps) + StringArea(args);
    p := PushPointers(a, c, ptrs, end);
  }

  /** The four fixed words. */
  method PushFixed(a: array<byte>, p0: nat, capc: nat, capv: nat, argc: nat, argv: nat, ghost end: nat) returns (p: nat)
    requires 32 <= p0 <= end <= a.Length
    modifies a
    ensures p == p0 - 32 && a[p..end] == Fixed(capc, capv, argc, argv) + old(a[p0..end])
    ensures Outside(old(a[..]), a[..], p, p0)
  {
    FixedSplit(capc, capv, argc, argv, a[p0..end]);
    p := PushBytes(a, p0, Encode(argv, LONG), end);
    p := PushBytes(a, p, Encode(argc, LONG), end);
    p := PushBytes(a, p, Encode(capv, LONG), end);
    p := PushBytes(a, p, Encode(capc, LONG), end);
  }

  lemma {:induction false} FixedSplit(capc: nat, capv: nat, argc: nat, argv: nat, rest: seq<byte>)
    ensures Fixed(capc, capv, argc, argv) + rest ==
      Encode(capc, LONG) + (Encode(capv, LONG) + (Encode(argc, LONG) + (Encode(argv, LONG) + rest)))
  {
  }

  /**
   build_new_process_init_values for every admitted call. Its buffer is at offset `base` of the memory
   `mem`, which is large enough for all that the call writes, wherever that is: the bytes from the end
   word to the value count become the image and no other byte of the memory changes.
   */
  method Build(args: seq<Arg>, caps: Caps, top: nat, mem: array<byte>, base: nat, ptrs: array<nat>, mapped: bool)
    returns (ok: bool, count: nat)
    requires ptrs.Length == 512 && 0x4000 <= top && base % 8 == 0
    requires Accepted(args, caps) ==>
      0 <= base + 8 * EndWord(args, caps) && base + 8 * ValueCount(args, caps) <= mem.Length
    modifies mem, ptrs
    ensures ok == (Accepted(args, caps) && mapped)
    ensures !ok ==> mem[..] == old(mem[..])
    ensures ok ==> count == AlignedCount(ValueCount(args, caps))
    ensures ok ==> count % 2 == 0 && ValueCount(args, caps) <= count <= ValueCount(args, caps) + 1
    ensures ok ==> Laid(args, caps, top - 8 * count, base, old(ptrs[..]), ptrs[..], old(mem[..]), mem[..])
  {
    var v;
    ok, v, count := Admit(args, caps, mapped);
    if ok {
      EndIsClose(args, caps);
      Fill(args, caps, v, top - 8 * count, mem, base, ptrs, EndWord(args, caps));
    }
  }

  /** The writes end at most 65 words below the buffer, and the strings never leave it. */
  lemma {:induction false} EndIsClose(args: seq<Arg>, caps: Caps)
    requires |args| <= 512
    ensures EndWord(args, caps) >= -65 && |StringArea(args)| <= 8 * ValueCount(args, caps)
    ensures EndWord(args, caps) < ValueCount(args, caps)
  {
    LandsExactly(args, caps);
    StringsLength(args, 0);
    assert args[0..] == args;
    FewNulls(args);
  }

  lemma {:induction false} FewNulls(args: seq<Arg>)
    ensures Nulls(args) <= |args|
  {
    if args != [] { FewNulls(args[1..]); }
  }

  /** The checks of build_new_process_init_values and its two counts. */
  method Admit(args: seq<Arg>, caps: Caps, mapped: bool) returns (ok: bool, v: nat, count: nat)
    ensures ok == (Accepted(args, caps) && mapped)
    ensures ok ==> v == ValueCount(args, caps) && count == AlignedCount(v) && |args| <= 512 && count < 1024
    ensures ok ==> count % 2 == 0 && v <= count <= v + 1
  {
    ok, v, count := false, 0, 0;
    if |args| > MAX_ARG_COUNT {
      return;
    }
    var length := CountStrings(args);
    v := Words(length) + CapCount(caps) * 2 + |args| + STATIC_VALUE_COUNT;
    if v > MAX_STACK_VALUE_COUNT {
      return;
    }
    count := if v % 2 == 1 then v + 1 else v;
    ok := count / 512 <= 1 && mapped;
  }

  /** The first pass over the arguments. */
  method CountStrings(args: seq<Arg>) returns (total: nat)
    ensures total == Counted(args)
  {
    total := 0;
    for i := 0 to |args|
      invariant total + Counted(args[i..]) == Counted(args)
    {
      assert args[i..][1..] == args[i + 1..];
      if args[i].Str? {
        total := total + |Kept(args[i].chars)| + 1;
      }
    }
  }

  method Fill(args: seq<Arg>, caps: Caps, v: nat, bottom: nat, mem: array<byte>, base: nat, ptrs: array<nat>,
    ghost e: int)
    requires ptrs.Length == 512 && |args| <= 512 && v == ValueCount(args, caps) && e == EndWord(args, caps)
    requires base % 8 == 0 && 0 <= base + 8 * e && base + 8 * v <= mem.Length && |StringArea(args)| <= 8 * v
    requires bottom + 8 * e >= 0
    modifies mem, ptrs
    ensures Laid(args, caps, bottom, base, old(ptrs[..]), ptrs[..], old(mem[..]), mem[..])
  {
    var end, shift := base + 8 * v, bottom - base;
    var p := FillStrings(mem, args, end, shift, ptrs, v, bottom);
    ghost var capPtr, argvPtr;
    ghost var mid, q := mem[..], p;
    p, capPtr, argvPtr := FillWords(mem, p, args, caps, ptrs[..|args|], end, shift, v, bottom);
    assert mem[..][p..end] == mem[p..end];
    OutsideTwice(old(mem[..]), mid, mem[..], p, q, end);
    LaidWhole(args, caps, bottom, base, v, e, old(ptrs[..]), ptrs[..], old(mem[..]), mem[..]);
  }

  lemma {:induction false} OutsideTwice(before: seq<byte>, mid: seq<byte>, after: seq<byte>, p: nat, q: nat, end: nat)
    requires p <= q <= end && Outside(before, mid, q, end) && Outside(mid, after, p, q)
    ensures Outside(before, after, p, end)
  {
  }

  lemma {:induction false} LaidWhole(args: seq<Arg>, caps: Caps, bottom: nat, base: nat, v: nat, e: int,
    stale: seq<nat>, ptrs: seq<nat>, before: seq<byte>, after: seq<byte>)
    requires v == ValueCount(args, caps) && e == EndWord(args, caps) && |args| <= |ptrs|
    requires 0 <= base + 8 * e <= base + 8 * v <= |after| && Outside(before, after, base + 8 * e, base + 8 * v)
    requires |Strings(args, 0)| <= 8 * v && Pointed(args, v, bottom, stale, ptrs, 0)
    requires Image(args, caps, bottom, ptrs[..|args|], after[base + 8 * e..base + 8 * v], v)
    ensures Laid(args, caps, bottom, base, stale, ptrs, before, after)
  {
  }

  method FillStrings(mem: array<byte>, args: seq<Arg>, end: nat, shift: int, ptrs: array<nat>,
    ghost v: nat, ghost bottom: nat)
    returns (p: nat)
    requires |StringArea(args)| <= end <= mem.Length && |args| <= ptrs.Length && end % 8 == 0
    requires |StringArea(args)| <= 8 * v && shift + end == bottom + 8 * v
    modifies mem, ptrs
    ensures p == end - |StringArea(args)| && mem[p..end] == StringArea(args) && Outside(old(mem[..]), mem[..], p, end)
    ensures |Strings(args, 0)| <= 8 * v && Pointed(args, v, bottom, old(ptrs[..]), ptrs[..], 0)
  {
    StringsFit(args);
    p := PushStrings(mem, args, end, shift, ptrs, v, bottom);
    p := PushPadding(mem, p, args, end);
  }

  method FillWords(mem: array<byte>, p0: nat, args: seq<Arg>, caps: Caps, pointers: seq<nat>, end: nat, shift: int,
    ghost v: nat, ghost bottom: nat)
    returns (p: nat, capPtr: nat, argvPtr: nat)
    requires |pointers| == |args| && 8 * Taken(args, caps) <= end <= mem.Length
    requires shift + end == bottom + 8 * v && 8 * Taken(args, caps) <= shift + end
    requires p0 == end - |StringArea(args)| && mem[p0..end] == StringArea(args)
    modifies mem
    ensures capPtr == CapPointer(args, caps, bottom, v) && argvPtr == ArgvPointer(args, caps, pointers, bottom, v)
    ensures p == end - 8 * Taken(args, caps) && Outside(old(mem[..]), mem[..], p, p0)
    ensures mem[p..end] == Fixed(CapCount(caps), capPtr, |args|, argvPtr) + Upper(args, caps, pointers)
  {
    UpperLength(args, caps, pointers);
    var t, c := PushTables(mem, p0, args, caps, pointers, end);
    capPtr := if caps.Table? && |caps.caps| > 0 then shift + c else 0;
    argvPtr := shift + t;
    p := PushFixed(mem, t, CapCount(caps), capPtr, |args|, argvPtr, end);
  }

  lemma {:induction false} StringsFit(args: seq<Arg>)
    ensures |Strings(args, 0)| <= |StringArea(args)|
  {
  }

  lemma {:induction false} UpperLength(args: seq<Arg>, caps: Caps, ptrs: seq<nat>)
    requires |ptrs| == |args|
    ensures |Upper(args, caps, ptrs)| + 32 == 8 * Taken(args, caps) && |Strings(args, 0)| <= |StringArea(args)|
    ensures |StringArea(args)| <= |CapArea(caps) + StringArea(args)| <= |Upper(args, caps, ptrs)|
  {
  }

  /** `img` is the image for `args` and `caps`, up to the value count `v`. */
  ghost predicate Image(args: seq<Arg>, caps: Caps, bottom: nat, pointers: seq<nat>, img: seq<byte>, v: nat) {
    && 0 <= CapPointer(args, caps, bottom, v) && 0 <= ArgvPointer(args, caps, pointers, bottom, v)
    && img == Fixed(CapCount(caps), CapPointer(args, caps, bottom, v), |args|,
      ArgvPointer(args, caps, pointers, bottom, v)) + Upper(args, caps, pointers)
  }

  /** The image with the pointers that belong to it. */
  ghost predicate Built(args: seq<Arg>, caps: Caps, bottom: nat, stale: seq<nat>, ptrs: seq<nat>, img: seq<byte>) {
    var v := ValueCount(args, caps);
    && |Strings(args, 0)| <= 8 * v && Pointed(args, v, bottom, stale, ptrs, 0)
    && Image(args, caps, bottom, ptrs[..|args|], img, v)
  }

  /** The image stands where the writes go in a memory with the buffer at `base`, and nothing else has changed. */
  ghost predicate Laid(args: seq<Arg>, caps: Caps, bottom: nat, base: nat, stale: seq<nat>, ptrs: seq<nat>,
    before: seq<byte>, after: seq<byte>)
  {
    var lo, hi := base + 8 * EndWord(args, caps), base + 8 * ValueCount(args, caps);
    0 <= lo <= hi <= |after| && Outside(before, after, lo, hi) && Built(args, caps, bottom, stale, ptrs, after[lo..hi])
  }

  // ---------------------------------------------------------------------------------------
  // Reading the image back
  // ---------------------------------------------------------------------------------------

  function WordAt(img: seq<byte>, at: nat): nat
    requires at + 8 <= |img|
  {
    Decode(img[at..at + 8])
  }

  /** The image begins with these four words. */
  predicate FirstWords(img: seq<byte>, capc: int, capv: int, argc: int, argv: int) {
    && |img| >= 32 && WordAt(img, 0) == capc && WordAt(img, 8) == capv
    && WordAt(img, 16) == argc && WordAt(img, 24) == argv
  }

  /** `part` stands at offset `at` of `img`. */
  predicate IsAt(img: seq<byte>, at: int, part: seq<byte>) {
    0 <= at && at + |part| <= |img| && img[at..at + |part|] == part
  }

  lemma {:induction false} AtLeft(a: seq<byte>, b: seq<byte>, at: int, part: seq<byte>)
    requires IsAt(a, at, part)
    ensures IsAt(a + b, at, part)
  {
    SliceLeft(a, b, at, at + |part|);
  }

  lemma {:induction false} AtRight(a: seq<byte>, b: seq<byte>, at: int, part: seq<byte>)
    requires IsAt(b, at, part)
    ensures IsAt(a + b, |a| + at, part)
  {
    Behind(a, b, at, part);
  }

  lemma {:induction false} WordReads(img: seq<byte>, at: nat, x: nat)
    requires IsAt(img, at, Encode(x, LONG)) && x < TWO_64
    ensures at + 8 <= |img| && WordAt(img, at) == x
  {
    Limits();
    DecodeEncode(x, LONG);
  }

  /** The words from number `k` on stand one after the other. */
  predicate PointersHeld(b: seq<byte>, ptrs: seq<nat>, k: nat) {
    forall i :: k <= i < |ptrs| ==> IsAt(b, 8 * (i - k), Encode(ptrs[i], LONG))
  }

  predicate PairsHeld(b: seq<byte>, caps: seq<Cap>, k: nat) {
    forall i :: k <= i < |caps| ==>
      IsAt(b, 16 * (i - k), Encode(caps[i].id, LONG)) && IsAt(b, 16 * (i - k) + 8, Encode(caps[i].cookie, LONG))
  }

  /** Each string stands where the strings from it on begin, counted from the end. */
  predicate TextHeld(b: seq<byte>, args: seq<Arg>, i: nat)
    requires i < |args|
  {
    TailIs(b, |Strings(args, i)|, ArgBytes(args[i]))
  }

  /** `part` stands `n` bytes before the end of `b`. */
  predicate TailIs(b: seq<byte>, n: nat, part: seq<byte>) {
    IsAt(b, |b| - n, part)
  }

  predicate TextsHeld(b: seq<byte>, args: seq<Arg>, k: nat) {
    forall i :: k <= i < |args| ==> TextHeld(b, args, i)
  }

  lemma {:induction false} HoldsPointers(ptrs: seq<nat>, k: nat)
    requires k <= |ptrs|
    ensures PointersHeld(PointerBytes(ptrs, k), ptrs, k)
    decreases |ptrs| - k
  {
    if k < |ptrs| {
      HoldsPointers(ptrs, k + 1);
      var first, rest := Encode(ptrs[k], LONG), PointerBytes(ptrs, k + 1);
      AtLeft(first, rest, 0, first);
      forall i | k < i < |ptrs| ensures IsAt(first + rest, 8 * (i - k), Encode(ptrs[i], LONG)) {
        AtRight(first, rest, 8 * (i - k - 1), Encode(ptrs[i], LONG));
      }
    }
  }

  lemma {:induction false} HoldsPairs(caps: seq<Cap>, k: nat)
    requires k <= |caps|
    ensures PairsHeld(CapBytes(caps, k), caps, k)
    decreases |caps| - k
  {
    if k < |caps| {
      HoldsPairs(caps, k + 1);
      var id, cookie, rest := Encode(caps[k].id, LONG), Encode(caps[k].cookie, LONG), CapBytes(caps, k + 1);
      AtLeft(id, cookie, 0, id);
      AtRight(id, cookie, 0, cookie);
      AtLeft(id + cookie, rest, 0, id);
      AtLeft(id + cookie, rest, 8, cookie);
      forall i | k < i < |caps|
        ensures IsAt(id + cookie + rest, 16 * (i - k), Encode(caps[i].id, LONG))
        ensures IsAt(id + cookie + rest, 16 * (i - k) + 8, Encode(caps[i].cookie, LONG))
      {
        AtRight(id + cookie, rest, 16 * (i - k - 1), Encode(caps[i].id, LONG));
        AtRight(id + cookie, rest, 16 * (i - k - 1) + 8, Encode(caps[i].cookie, LONG));
      }
    }
  }

  /** What stands `n` bytes before the end stays there when something is put in front. */
  lemma {:induction false} TailBehind(a: seq<byte>, b: seq<byte>, n: nat, part: seq<byte>)
    requires TailIs(b, n, part)
    ensures TailIs(a + b, n, part)
  {
    AtRight(a, b, |b| - n, part);
  }

  lemma {:induction false} TailInside(f: seq<byte>, a: seq<byte>, c: seq<byte>, t: seq<byte>, n: nat, part: seq<byte>)
    requires TailIs(t, n, part)
    ensures TailIs(f + (a + (c + t)), n, part)
  {
    TailBehind(c, t, n, part);
    TailBehind(a, c + t, n, part);
    TailBehind(f, a + (c + t), n, part);
  }

  lemma {:induction false} HoldsTexts(args: seq<Arg>, k: nat)
    requires k <= |args|
    ensures TextsHeld(Strings(args, k), args, k)
    decreases |args| - k
  {
    if k < |args| {
      HoldsTexts(args, k + 1);
      var first, rest := ArgBytes(args[k]), Strings(args, k + 1);
      AtLeft(first, rest, 0, first);
      forall i | k < i < |args| ensures TextHeld(first + rest, args, i) {
        assert TextHeld(rest, args, i);
        TailBehind(first, rest, |Strings(args, i)|, ArgBytes(args[i]));
      }
    }
  }

  /** The image of a call in a 64-bit address space. */
  ghost predicate Whole(args: seq<Arg>, caps: Caps, bottom: nat, stale: seq<nat>, ptrs: seq<nat>, img: seq<byte>) {
    Built(args, caps, bottom, stale, ptrs, img) && bottom + 8 * ValueCount(args, caps) < TWO_64
  }

  /** The capabilities that there are pairs for. */
  function Pairs(caps: Caps): seq<Cap> {
    if caps.Table? then caps.caps else []
  }

  /** The address of the first byte of the image. */
  function Start(args: seq<Arg>, caps: Caps, bottom: nat): int {
    bottom + 8 * EndWord(args, caps)
  }

  /** The image is as long as what the writes take, and begins at word 0 if nothing is null. */
  lemma {:induction false} WholeLength(
    args: seq<Arg>, caps: Caps, bottom: nat, stale: seq<nat>, ptrs: seq<nat>, img: seq<byte>)
    requires Whole(args, caps, bottom, stale, ptrs, img)
    ensures |img| == 32 + 8 * |args| + 16 * |Pairs(caps)| + |StringArea(args)|
    ensures Start(args, caps, bottom) + |img| == bottom + 8 * ValueCount(args, caps)
    ensures ArgvPointer(args, caps, ptrs[..|args|], bottom, ValueCount(args, caps)) == Start(args, caps, bottom) + 32
    ensures CapPointer(args, caps, bottom, ValueCount(args, caps)) ==
      if Pairs(caps) == [] then 0 else Start(args, caps, bottom) + 32 + 8 * |args|
    ensures caps.Table? && (forall i :: 0 <= i < |args| ==> args[i].Str?) ==>
      Start(args, caps, bottom) == bottom && |img| == 8 * ValueCount(args, caps)
  {
    if forall i :: 0 <= i < |args| ==> args[i].Str? { NoNulls(args); }
    LandsExactly(args, caps);
    UpperLength(args, caps, ptrs[..|args|]);
  }

  /** The four parts of an image, each with what it holds. */
  ghost predicate Parts(args: seq<Arg>, caps: seq<Cap>, pointers: seq<nat>, img: seq<byte>,
    f: seq<byte>, a: seq<byte>, c: seq<byte>, t: seq<byte>)
  {
    && img == f + (a + (c + t)) && |f| == 32 && |a| == 8 * |args| && |c| == 16 * |caps|
    && PointersHeld(a, pointers, 0) && PairsHeld(c, caps, 0) && TextsHeld(t, args, 0)
  }

  lemma {:induction false} Split(args: seq<Arg>, caps: seq<Cap>, pointers: seq<nat>, f: seq<byte>, img: seq<byte>)
    returns (a: seq<byte>, c: seq<byte>, t: seq<byte>)
    requires |pointers| == |args| && |f| == 32 && img == f + Upper(args, Table(caps), pointers)
    ensures Parts(args, caps, pointers, img, f, a, c, t)
  {
    a, c, t := PointerBytes(pointers, 0), CapBytes(caps, 0), StringArea(args);
    HoldsPointers(pointers, 0);
    HoldsPairs(caps, 0);
    HoldsTexts(args, 0);
    forall i | 0 <= i < |args| ensures TextHeld(t, args, i) {
      assert TextHeld(Strings(args, 0), args, i);
      TailBehind(Padding(args), Strings(args, 0), |Strings(args, i)|, ArgBytes(args[i]));
    }
  }

  lemma {:induction false} PointerIn(args: seq<Arg>, caps: seq<Cap>, pointers: seq<nat>, img: seq<byte>,
    f: seq<byte>, a: seq<byte>, c: seq<byte>, t: seq<byte>, i: nat)
    requires Parts(args, caps, pointers, img, f, a, c, t) && i < |pointers|
    ensures IsAt(img, 32 + 8 * i, Encode(pointers[i], LONG))
  {
    assert IsAt(a, 8 * (i - 0), Encode(pointers[i], LONG));
    AtLeft(a, c + t, 8 * i, Encode(pointers[i], LONG));
    AtRight(f, a + (c + t), 8 * i, Encode(pointers[i], LONG));
  }

  lemma {:induction false} PairIn(args: seq<Arg>, caps: seq<Cap>, pointers: seq<nat>, img: seq<byte>,
    f: seq<byte>, a: seq<byte>, c: seq<byte>, t: seq<byte>, at: nat, part: seq<byte>)
    requires Parts(args, caps, pointers, img, f, a, c, t) && IsAt(c, at, part)
    ensures IsAt(img, 32 + 8 * |args| + at, part)
  {
    AtLeft(c, t, at, part);
    AtRight(a, c + t, at, part);
    AtRight(f, a + (c + t), |a| + at, part);
  }

  lemma {:induction false} TextIn(args: seq<Arg>, caps: seq<Cap>, pointers: seq<nat>, img: seq<byte>,
    f: seq<byte>, a: seq<byte>, c: seq<byte>, t: seq<byte>, i: nat)
    requires Parts(args, caps, pointers, img, f, a, c, t) && i < |args|
    ensures TextHeld(img, args, i)
  {
    assert TextHeld(t, args, i);
    TailInside(f, a, c, t, |Strings(args, i)|, ArgBytes(args[i]));
  }

  lemma {:induction false} FixedIn(capc: u64, capv: u64, argc: u64, argv: u64, rest: seq<byte>, img: seq<byte>)
    requires img == Fixed(capc, capv, argc, argv) + rest
    ensures FirstWords(img, capc, capv, argc, argv)
  {
    var w, x, y, z := Encode(capc, LONG), Encode(capv, LONG), Encode(argc, LONG), Encode(argv, LONG);
    FixedSplit(capc, capv, argc, argv, rest);
    AtLeft(w, x + (y + (z + rest)), 0, w);
    AtLeft(x, y + (z + rest), 0, x);
    AtRight(w, x + (y + (z + rest)), 0, x);
    AtLeft(y, z + rest, 0, y);
    AtRight(x, y + (z + rest), 0, y);
    AtRight(w, x + (y + (z + rest)), 8, y);
    AtLeft(z, rest, 0, z);
    AtRight(y, z + rest, 0, z);
    AtRight(x, y + (z + rest), 8, z);
    AtRight(w, x + (y + (z + rest)), 16, z);
    WordReads(img, 0, capc);
    WordReads(img, 8, capv);
    WordReads(img, 16, argc);
    WordReads(img, 24, argv);
  }

  lemma {:induction false} FixedShape(
    args: seq<Arg>, caps: Caps, bottom: nat, stale: seq<nat>, ptrs: seq<nat>, img: seq<byte>)
    returns (capv: u64, argv: u64)
    requires Whole(args, caps, bottom, stale, ptrs, img)
    ensures |args| < TWO_64 && CapCount(caps) < TWO_64 && argv == Start(args, caps, bottom) + 32
    ensures capv == if Pairs(caps) == [] then 0 else Start(args, caps, bottom) + 32 + 8 * |args|
    ensures img == Fixed(CapCount(caps), capv, |args|, argv) + Upper(args, Table(Pairs(caps)), ptrs[..|args|])
  {
    WholeLength(args, caps, bottom, stale, ptrs, img);
    assert CapArea(caps) == CapArea(Table(Pairs(caps)));
    capv := if Pairs(caps) == [] then 0 else Start(args, caps, bottom) + 32 + 8 * |args|;
    argv := Start(args, caps, bottom) + 32;
  }

  /** Words 0 to 3: the counts, and pointers to the capability pairs and to the argument pointers. */
  lemma {:induction false} FixedReads(
    args: seq<Arg>, caps: Caps, bottom: nat, stale: seq<nat>, ptrs: seq<nat>, img: seq<byte>)
    requires Whole(args, caps, bottom, stale, ptrs, img)
    ensures FirstWords(img, CapCount(caps),
      if Pairs(caps) == [] then 0 else Start(args, caps, bottom) + 32 + 8 * |args|,
      |args|, Start(args, caps, bottom) + 32)
  {
    var capv, argv := FixedShape(args, caps, bottom, stale, ptrs, img);
    FixedIn(CapCount(caps), capv, |args|, argv, Upper(args, Table(Pairs(caps)), ptrs[..|args|]), img);
  }

  lemma {:induction false} SplitWhole(
    args: seq<Arg>, caps: Caps, bottom: nat, stale: seq<nat>, ptrs: seq<nat>, img: seq<byte>)
    returns (f: seq<byte>, a: seq<byte>, c: seq<byte>, t: seq<byte>)
    requires Whole(args, caps, bottom, stale, ptrs, img)
    ensures Parts(args, Pairs(caps), ptrs[..|args|], img, f, a, c, t)
  {
    var capv, argv := FixedShape(args, caps, bottom, stale, ptrs, img);
    f := Fixed(CapCount(caps), capv, |args|, argv);
    a, c, t := Split(args, Pairs(caps), ptrs[..|args|], f, img);
  }

  /** Pair `j` behind the capability pointer is capability `j`. */
  lemma {:induction false} CapabilityReads(args: seq<Arg>, caps: Caps, bottom: nat, stale: seq<nat>, ptrs: seq<nat>,
    img: seq<byte>, j: nat)
    requires Whole(args, caps, bottom, stale, ptrs, img) && j < |Pairs(caps)|
    ensures 32 + 8 * |args| + 16 * j + 16 <= |img|
    ensures WordAt(img, 32 + 8 * |args| + 16 * j) == Pairs(caps)[j].id
    ensures WordAt(img, 32 + 8 * |args| + 16 * j + 8) == Pairs(caps)[j].cookie
  {
    var f, a, c, t := SplitWhole(args, caps, bottom, stale, ptrs, img);
    CapabilityIn(args, Pairs(caps), ptrs[..|args|], img, f, a, c, t, j);
  }

  lemma {:induction false} CapabilityIn(args: seq<Arg>, caps: seq<Cap>, pointers: seq<nat>, img: seq<byte>,
    f: seq<byte>, a: seq<byte>, c: seq<byte>, t: seq<byte>, j: nat)
    requires Parts(args, caps, pointers, img, f, a, c, t) && j < |caps|
    ensures var at := 32 + 8 * |args| + 16 * j;
      at + 16 <= |img| && WordAt(img, at) == caps[j].id && WordAt(img, at + 8) == caps[j].cookie
  {
    assert IsAt(c, 16 * (j - 0), Encode(caps[j].id, LONG));
    PairIn(args, caps, pointers, img, f, a, c, t, 16 * j, Encode(caps[j].id, LONG));
    PairIn(args, caps, pointers, img, f, a, c, t, 16 * j + 8, Encode(caps[j].cookie, LONG));
    WordReads(img, 32 + 8 * |args| + 16 * j, caps[j].id);
    WordReads(img, 32 + 8 * |args| + 16 * j + 8, caps[j].cookie);
  }

  lemma {:induction false} PointerValue(args: seq<Arg>, caps: Caps, bottom: nat, stale: seq<nat>, ptrs: seq<nat>,
    img: seq<byte>, i: nat)
    requires Whole(args, caps, bottom, stale, ptrs, img) && i < |args|
    ensures i < |ptrs| && i < |stale| && |Strings(args, i)| <= |img|
    ensures args[i].Null? ==> ptrs[i] == stale[i]
    ensures args[i].Str? ==> ptrs[i] == Start(args, caps, bottom) + |img| - |Strings(args, i)| < TWO_64
  {
    WholeLength(args, caps, bottom, stale, ptrs, img);
    SuffixFits(args, i);
  }

  /** Pointer `i` of the vector and the text of argument `i` are in the image. */
  lemma {:induction false} ArgumentIn(args: seq<Arg>, caps: Caps, bottom: nat, stale: seq<nat>, ptrs: seq<nat>,
    img: seq<byte>, i: nat)
    requires Whole(args, caps, bottom, stale, ptrs, img) && i < |args|
    ensures i < |ptrs| && IsAt(img, 32 + 8 * i, Encode(ptrs[i], LONG)) && TextHeld(img, args, i)
  {
    var f, a, c, t := SplitWhole(args, caps, bottom, stale, ptrs, img);
    PointerIn(args, Pairs(caps), ptrs[..|args|], img, f, a, c, t, i);
    TextIn(args, Pairs(caps), ptrs[..|args|], img, f, a, c, t, i);
  }

  /** The pointer at `at` is the address of the text of argument `i`. */
  ghost predicate PointsAt(img: seq<byte>, at: nat, pointer: nat, start: int, args: seq<Arg>, i: nat)
    requires i < |args|
  {
    && IsAt(img, at, Encode(pointer, LONG)) && TextHeld(img, args, i)
    && pointer == start + |img| - |Strings(args, i)| < TWO_64
  }

  lemma {:induction false} PointerStands(args: seq<Arg>, caps: Caps, bottom: nat, stale: seq<nat>, ptrs: seq<nat>,
    img: seq<byte>, i: nat)
    requires Whole(args, caps, bottom, stale, ptrs, img) && i < |args| && args[i].Str?
    ensures i < |ptrs| && PointsAt(img, 32 + 8 * i, ptrs[i], Start(args, caps, bottom), args, i)
  {
    PointerValue(args, caps, bottom, stale, ptrs, img, i);
    ArgumentIn(args, caps, bottom, stale, ptrs, img, i);
  }

  /** What the two say together. */
  lemma {:induction false} FollowPointer(img: seq<byte>, at: nat, pointer: nat, start: int, args: seq<Arg>, i: nat)
    requires i < |args| && args[i].Str? && PointsAt(img, at, pointer, start, args, i)
    ensures LeadsTo(img, at, start, args[i].chars)
  {
    WordReads(img, at, pointer);
    FollowTail(img, |Strings(args, i)|, args[i], pointer, start);
  }

  lemma {:induction false} FollowTail(img: seq<byte>, n: nat, arg: Arg, pointer: int, start: int)
    requires arg.Str? && TailIs(img, n, ArgBytes(arg)) && pointer == start + |img| - n
    ensures HoldsText(img, pointer - start, arg.chars)
  {
    TailAt(img, n, ArgBytes(arg), pointer, start);
    TextByBytes(img, pointer - start, arg.chars);
  }

  lemma {:induction false} TailAt(img: seq<byte>, n: nat, part: seq<byte>, pointer: int, start: int)
    requires TailIs(img, n, part) && pointer == start + |img| - n
    ensures IsAt(img, pointer - start, part)
  {
  }

  /** From offset `p` the memory holds the first 255 of these characters, and then a 0. */
  predicate HoldsText(img: seq<byte>, p: int, chars: seq<byte>) {
    var n := if |chars| < 255 then |chars| else 255;
    0 <= p && p + n < |img| && img[p + n] == 0 && forall k :: 0 <= k < n ==> img[p + k] == chars[k]
  }

  /** The word at `at` is an address that leads to this text; the image begins at address `start`. */
  predicate LeadsTo(img: seq<byte>, at: nat, start: int, chars: seq<byte>) {
    at + 8 <= |img| && HoldsText(img, WordAt(img, at) - start, chars)
  }

  lemma {:induction false} TextByBytes(img: seq<byte>, p: int, chars: seq<byte>)
    requires IsAt(img, p, ArgBytes(Str(chars)))
    ensures HoldsText(img, p, chars)
  {
    KeptExactly(chars);
    var b := ArgBytes(Str(chars));
    forall k | 0 <= k < |b| ensures img[p + k] == b[k] { assert img[p..p + |b|][k] == b[k]; }
  }

  /** Following pointer `i` of the argument vector gives that argument, cut at 255 characters, NUL-terminated. */
  lemma {:induction false} ArgumentReads(args: seq<Arg>, caps: Caps, bottom: nat, stale: seq<nat>, ptrs: seq<nat>,
    img: seq<byte>, i: nat)
    requires Whole(args, caps, bottom, stale, ptrs, img) && i < |args| && args[i].Str?
    ensures LeadsTo(img, 32 + 8 * i, Start(args, caps, bottom), args[i].chars)
  {
    PointerStands(args, caps, bottom, stale, ptrs, img, i);
    FollowPointer(img, 32 + 8 * i, ptrs[i], Start(args, caps, bottom), args, i);
  }

  /** The pointer of a null argument is whatever the builder's table held before. */
  lemma {:induction false} NullReads(args: seq<Arg>, caps: Caps, bottom: nat, stale: seq<nat>, ptrs: seq<nat>,
    img: seq<byte>, i: nat)
    requires Whole(args, caps, bottom, stale, ptrs, img) && i < |args| && args[i].Null?
    ensures i < |stale| && IsAt(img, 32 + 8 * i, Encode(stale[i], LONG))
  {
    PointerValue(args, caps, bottom, stale, ptrs, img, i);
    ArgumentIn(args, caps, bottom, stale, ptrs, img, i);
  }
}
