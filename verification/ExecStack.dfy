/** The stack image exec builds for a new program (tasking/processes/process.c) from the argument and
    environment lists it copied out of the old one (tasking/processes/syscalls.c). */
module ExecStack {
  import opened Machine

  const TOP := 0xC000_0000
  const SIZE := 8192                // PROCESS_STACK_SIZE_DEFAULT
  const BASE := TOP - SIZE

  type Text = seq<Byte>

  /** A C string: no NUL inside. */
  predicate IsText(s: Text) {
    forall i :: 0 <= i < |s| ==> s[i] != 0
  }

  predicate AreTexts(ss: seq<Text>) {
    forall i :: 0 <= i < |ss| ==> IsText(ss[i])
  }

  // ---------------------------------------------------------------- reading the image

  /** The stack pages; address `a` is index `a - BASE`. */
  type Image = m: seq<Byte> | |m| == SIZE witness seq(SIZE, _ => 0)

  predicate Inside(a: int, n: int) {
    BASE <= a && a + n <= TOP
  }

  /** Little-endian word at `a`. */
  function ReadWord(m: Image, a: int): int
    requires Inside(a, 4)
  {
    var i := a - BASE;
    var b0: int, b1: int, b2: int, b3: int := m[i], m[i + 1], m[i + 2], m[i + 3];
    b0 + 0x100 * b1 + 0x1_0000 * b2 + 0x100_0000 * b3
  }

  /** The word at `a` is `w` exactly if the bytes of `w` stand there, lowest first. */
  lemma WordAtIs(m: Image, a: int, w: int)
    requires Inside(a, 4) && 0 <= w < TWO32
    ensures ReadWord(m, a) == w <==>
            && m[a - BASE] == w % 0x100 && m[a - BASE + 1] == w / 0x100 % 0x100
            && m[a - BASE + 2] == w / 0x1_0000 % 0x100 && m[a - BASE + 3] == w / 0x100_0000
  {
    var i := a - BASE;
    var b0: int, b1: int, b2: int, b3: int := m[i], m[i + 1], m[i + 2], m[i + 3];
    var y := w / 0x100;
    var z := y / 0x100;
    DivideBy(w, 0x1_0000, z, 0x100 * (y % 0x100) + w % 0x100);
    DivideBy(w, 0x100_0000, z / 0x100, 0x1_0000 * (z % 0x100) + 0x100 * (y % 0x100) + w % 0x100);
    if ReadWord(m, a) == w {
      DivideBy(w, 0x100, b1 + 0x100 * b2 + 0x1_0000 * b3, b0);
      DivideBy(y, 0x100, b2 + 0x100 * b3, b1);
      DivideBy(z, 0x100, b3, b2);
    }
  }

  /** The bytes from `a` up to the first NUL. */
  function ReadText(m: Image, a: int): Text
    requires Inside(a, 0)
    decreases TOP - a
  {
    if a == TOP || m[a - BASE] == 0 then [] else [m[a - BASE]] + ReadText(m, a + 1)
  }

  /** A pointer array of `n` strings, closed by a null pointer. */
  ghost predicate ListAt(m: Image, p: int, ss: seq<Text>) {
    && Inside(p, 4 * |ss| + 4)
    && ReadWord(m, p + 4 * |ss|) == 0
    && forall i :: 0 <= i < |ss| ==> ItemAt(m, p + 4 * i, ss[i])
  }

  /** The word at `p` points to the string `s`. */
  ghost predicate ItemAt(m: Image, p: int, s: Text) {
    Inside(p, 4) && Inside(ReadWord(m, p), 1) && ReadText(m, ReadWord(m, p)) == s
  }

  /** The strings of the list lie above its pointer array. */
  ghost predicate TextsAbove(m: Image, p: int, ss: seq<Text>) {
    Inside(p, 4 * |ss| + 4) && forall i :: 0 <= i < |ss| ==> p <= ReadWord(m, p + 4 * i)
  }

  /** What the program finds from its initial stack pointer. */
  ghost predicate Decodes(m: Image, sp: int, args: seq<Text>, env: seq<Text>) {
    && Inside(sp + 4, 16)
    && ReadWord(m, sp + 4) == |env| && ListAt(m, ReadWord(m, sp + 8), env)
    && ReadWord(m, sp + 12) == |args| && ListAt(m, ReadWord(m, sp + 16), args)
  }

  // ---------------------------------------------------------------- stores below a line

  /** Everything from `a` up is as before. */
  ghost predicate SameAbove(m: Image, m': Image, a: int) {
    forall i :: 0 <= i < SIZE && a - BASE <= i ==> m'[i] == m[i]
  }

  lemma {:induction false} TextKept(m: Image, m': Image, line: int, a: int)
    requires SameAbove(m, m', line) && line <= a && Inside(a, 0)
    ensures ReadText(m', a) == ReadText(m, a)
    decreases TOP - a
  {
    if a < TOP && m[a - BASE] != 0 {
      TextKept(m, m', line, a + 1);
    }
  }

  lemma WordKept(m: Image, m': Image, line: int, a: int)
    requires SameAbove(m, m', line) && line <= a && Inside(a, 4)
    ensures ReadWord(m', a) == ReadWord(m, a)
  {
  }

  ghost predicate Bytes(m: Image, a: int, s: Text) {
    Inside(a, |s|) && forall i :: 0 <= i < |s| ==> m[a - BASE + i] == s[i]
  }

  lemma {:induction false} StoredText(m: Image, a: int, s: Text)
    requires IsText(s) && Bytes(m, a, s + [0])
    ensures ReadText(m, a) == s
    decreases |s|
  {
    if s == [] {
      assert (s + [0])[0] == 0;
    } else {
      assert (s + [0])[0] == s[0];
      forall i | 0 <= i < |s[1..] + [0]|
        ensures m[a + 1 - BASE + i] == (s[1..] + [0])[i]
      {
        assert (s[1..] + [0])[i] == (s + [0])[i + 1];
      }
      StoredText(m, a + 1, s[1..]);
    }
  }

  // ---------------------------------------------------------------- the three kinds of store

  /** `stack_offset -= strlen(s) + 1; strcpy(stack_offset, s)`. */
  method PushText(stack: array<Byte>, sp: int, s: Text) returns (sp': int)
    requires stack.Length == SIZE && sp <= TOP && BASE <= sp - (|s| + 1) && IsText(s)
    modifies stack
    ensures sp' == sp - (|s| + 1) && SameAbove(old(stack[..]), stack[..], sp)
    ensures ReadText(stack[..], sp') == s
  {
    sp' := sp - (|s| + 1);
    var i := 0;
    while i < |s|
      invariant 0 <= i <= |s| && SameAbove(old(stack[..]), stack[..], sp)
      invariant forall k :: 0 <= k < i ==> stack[sp' - BASE + k] == s[k]
    {
      stack[sp' - BASE + i] := s[i];
      i := i + 1;
    }
    stack[sp' - BASE + i] := 0;
    assert Bytes(stack[..], sp', s + [0]);
    StoredText(stack[..], sp', s);
  }

  /** `stack_offset -= 4; *stack_offset = w`. */
  method PushWord(stack: array<Byte>, sp: int, w: Word) returns (sp': int)
    requires stack.Length == SIZE && Inside(sp - 4, 4)
    modifies stack
    ensures sp' == sp - 4 && SameAbove(old(stack[..]), stack[..], sp) && ReadWord(stack[..], sp') == w
  {
    sp' := sp - 4;
    var i := sp' - BASE;
    stack[i] := w % 0x100;
    stack[i + 1] := w / 0x100 % 0x100;
    stack[i + 2] := w / 0x1_0000 % 0x100;
    stack[i + 3] := w / 0x100_0000;
    WordBytes(w);
  }

  lemma WordBytes(w: Word)
    ensures w % 0x100 + 0x100 * (w / 0x100 % 0x100) + 0x1_0000 * (w / 0x1_0000 % 0x100) + 0x100_0000 * (w / 0x100_0000) == w
  {
    assert w / 0x1_0000 == w / 0x100 / 0x100 && w / 0x100_0000 == w / 0x100 / 0x100 / 0x100;
  }

  /** Bytes the strings of a list take, terminators included. */
  function TextBytes(ss: seq<Text>): nat {
    if ss == [] then 0 else TextBytes(ss[..|ss| - 1]) + |ss[|ss| - 1]| + 1
  }

  lemma {:induction false} TextBytesMono(ss: seq<Text>, i: nat)
    requires i <= |ss|
    ensures TextBytes(ss[..i]) <= TextBytes(ss)
    decreases |ss|
  {
    if i < |ss| {
      TextBytesMono(ss[..|ss| - 1], i);
      assert ss[..|ss| - 1][..i] == ss[..i];
    } else {
      assert ss[..i] == ss;
    }
  }

  /** One list: its strings downwards, then the pointer array above a null pointer. */
  method PushList(stack: array<Byte>, sp: int, ss: seq<Text>) returns (p: int)
    requires stack.Length == SIZE && AreTexts(ss) && sp <= TOP && BASE <= sp - TextBytes(ss) - 4 * (|ss| + 1)
    modifies stack
    ensures p == sp - TextBytes(ss) - 4 * (|ss| + 1) && SameAbove(old(stack[..]), stack[..], sp)
    ensures ListAt(stack[..], p, ss) && TextsAbove(stack[..], p, ss)
  {
    var uparam := new int[|ss| + 1];
    var cur := PushTexts(stack, sp, ss, uparam);
    p := PushPointers(stack, cur, ss, uparam);
  }

  method PushTexts(stack: array<Byte>, sp: int, ss: seq<Text>, uparam: array<int>) returns (cur: int)
    requires stack.Length == SIZE && uparam.Length == |ss| + 1 && AreTexts(ss)
    requires sp <= TOP && BASE <= sp - TextBytes(ss)
    modifies stack, uparam
    ensures cur == sp - TextBytes(ss) && SameAbove(old(stack[..]), stack[..], sp)
    ensures forall j :: 0 <= j < |ss| ==> cur <= uparam[j] && Inside(uparam[j], 1) && ReadText(stack[..], uparam[j]) == ss[j]
  {
    cur := sp;
    for i := 0 to |ss|
      invariant cur == sp - TextBytes(ss[..i]) && SameAbove(old(stack[..]), stack[..], sp)
      invariant forall j :: 0 <= j < i ==> cur <= uparam[j] && Inside(uparam[j], 1) && ReadText(stack[..], uparam[j]) == ss[j]
    {
      TextBytesMono(ss, i + 1);
      assert ss[..i + 1][..i] == ss[..i];
      ghost var m := stack[..];
      ghost var line := cur;
      cur := PushText(stack, cur, ss[i]);
      forall j | 0 <= j < i
        ensures ReadText(stack[..], uparam[j]) == ss[j]
      {
        TextKept(m, stack[..], line, uparam[j]);
      }
      uparam[i] := cur;
    }
    assert ss[..|ss|] == ss;
  }

  method PushPointers(stack: array<Byte>, sp: int, ss: seq<Text>, uparam: array<int>) returns (p: int)
    requires stack.Length == SIZE && uparam.Length == |ss| + 1 && sp <= TOP && BASE <= sp - 4 * (|ss| + 1)
    requires forall j :: 0 <= j < |ss| ==> sp <= uparam[j] && Inside(uparam[j], 1) && ReadText(stack[..], uparam[j]) == ss[j]
    modifies stack
    ensures p == sp - 4 * (|ss| + 1) && SameAbove(old(stack[..]), stack[..], sp)
    ensures ListAt(stack[..], p, ss) && TextsAbove(stack[..], p, ss)
  {
    hide ReadText, ReadWord, SameAbove;
    p := sp;
    var i := |ss|;
    AboveSelf(stack[..], sp);
    while i >= 0
      invariant -1 <= i <= |ss| && p == sp - 4 * (|ss| - i) && SameAbove(old(stack[..]), stack[..], sp)
      invariant i < |ss| ==> ReadWord(stack[..], sp - 4) == 0
      invariant forall j :: i < j < |ss| ==> ReadWord(stack[..], sp - 4 * (|ss| + 1 - j)) == uparam[j]
    {
      ghost var m, line := stack[..], p;
      p := PushWord(stack, p, if i != |ss| then uparam[i] else 0);
      AboveTrans(old(stack[..]), m, stack[..], sp, line);
      if i < |ss| {
        WordKept(m, stack[..], line, sp - 4);
      }
      forall j | i < j < |ss|
        ensures ReadWord(stack[..], sp - 4 * (|ss| + 1 - j)) == uparam[j]
      {
        WordKept(m, stack[..], line, sp - 4 * (|ss| + 1 - j));
      }
      i := i - 1;
    }
    forall j | 0 <= j < |ss|
      ensures ItemAt(stack[..], p + 4 * j, ss[j]) && p <= ReadWord(stack[..], p + 4 * j)
    {
      assert p + 4 * j == sp - 4 * (|ss| + 1 - j);
      TextKept(old(stack[..]), stack[..], sp, uparam[j]);
    }
  }

  lemma AboveSelf(m: Image, a: int)
    ensures SameAbove(m, m, a)
  {
  }

  lemma AboveTrans(m0: Image, m1: Image, m2: Image, a: int, b: int)
    requires SameAbove(m0, m1, a) && SameAbove(m1, m2, b) && b <= a
    ensures SameAbove(m0, m2, a)
  {
  }

  lemma ListKept(m: Image, m': Image, line: int, p: int, ss: seq<Text>)
    requires SameAbove(m, m', line) && line <= p && ListAt(m, p, ss) && TextsAbove(m, p, ss)
    ensures ListAt(m', p, ss) && TextsAbove(m', p, ss)
  {
    WordKept(m, m', line, p + 4 * |ss|);
    forall i | 0 <= i < |ss|
      ensures ItemAt(m', p + 4 * i, ss[i]) && p <= ReadWord(m', p + 4 * i)
    {
      assert ItemAt(m, p + 4 * i, ss[i]);
      WordKept(m, m', line, p + 4 * i);
      TextKept(m, m', line, ReadWord(m, p + 4 * i));
    }
  }

  /** Stack bytes the two lists and the four closing words take. */
  function ImageBytes(args: seq<Text>, env: seq<Text>): nat {
    TextBytes(args) + 4 * (|args| + 1) + TextBytes(env) + 4 * (|env| + 1) + 16
  }

  /** The argument and environment part of `load_executable`. */
  method BuildStack(stack: array<Byte>, args: seq<Text>, env: seq<Text>) returns (sp: int)
    requires stack.Length == SIZE && AreTexts(args) && AreTexts(env) && ImageBytes(args, env) <= SIZE
    modifies stack
    ensures sp == 0xC000_0000 - ImageBytes(args, env) - 4
    ensures Decodes(stack[..], sp, args, env)
  {
    hide ReadText, ReadWord, ListAt, TextsAbove, SameAbove, TextBytes;
    var argvaddr := PushList(stack, TOP, args);
    ghost var m0 := stack[..];
    var envaddr := PushList(stack, argvaddr, env);
    ListKept(m0, stack[..], argvaddr, argvaddr, args);
    ghost var m1 := stack[..];
    sp := PushWord(stack, envaddr, argvaddr);
    ghost var m2 := stack[..];
    sp := PushWord(stack, sp, |args|);
    ghost var m3 := stack[..];
    sp := PushWord(stack, sp, envaddr);
    ghost var m4 := stack[..];
    sp := PushWord(stack, sp, |env|);
    FourWords(m1, m2, m3, m4, stack[..], envaddr);
    ListKept(m1, stack[..], envaddr, argvaddr, args);
    ListKept(m1, stack[..], envaddr, envaddr, env);
    sp := sp - 4;
  }

  lemma FourWords(m1: Image, m2: Image, m3: Image, m4: Image, m5: Image, a: int)
    requires Inside(a - 16, 16)
    requires SameAbove(m1, m2, a) && SameAbove(m2, m3, a - 4) && SameAbove(m3, m4, a - 8) && SameAbove(m4, m5, a - 12)
    ensures SameAbove(m1, m5, a)
    ensures ReadWord(m5, a - 4) == ReadWord(m2, a - 4)
    ensures ReadWord(m5, a - 8) == ReadWord(m3, a - 8)
    ensures ReadWord(m5, a - 12) == ReadWord(m4, a - 12)
  {
  }

  // ---------------------------------------------------------------- syscall_exec

  /** A string list in the calling process: pointers up to a null one. */
  ghost predicate UserList(user: seq<Option<Text>>, ss: seq<Text>) {
    |ss| < |user| && user[|ss|] == None && forall i :: 0 <= i < |ss| ==> user[i] == Some(ss[i])
  }

  /** `krealloc` of the pointer array to twice its size. */
  method Regrow(a: array<Option<Text>>) returns (b: array<Option<Text>>)
    ensures fresh(b) && b.Length == 2 * a.Length && forall i :: 0 <= i < a.Length ==> b[i] == a[i]
  {
    b := new Option<Text>[2 * a.Length](_ => None);
    for i := 0 to a.Length
      invariant forall k :: 0 <= k < i ==> b[k] == a[k]
    {
      b[i] := a[i];
    }
  }

  /** A counting and copying loop of `syscall_exec`. */
  method CopyList(user: seq<Option<Text>>, ghost ss: seq<Text>) returns (argv: array<Option<Text>>, argc: nat)
    requires UserList(user, ss)
    ensures argc == |ss| && argc < argv.Length && argv[argc] == None
    ensures forall i :: 0 <= i < argc ==> argv[i] == Some(ss[i])
  {
    argc := 0;
    var argv_size := 5;
    argv := new Option<Text>[argv_size](_ => None);
    while true
      invariant argc <= |ss| && argc < argv_size == argv.Length && fresh(argv)
      invariant forall i :: 0 <= i < argc ==> argv[i] == Some(ss[i])
      decreases |ss| - argc
    {
      if user[argc] == None {
        argv[argc] := None;
        break;
      }
      argv[argc] := user[argc];
      argc := argc + 1;
      if argc >= argv_size {
        argv_size := argv_size * 2;
        argv := Regrow(argv);
      }
    }
  }

  method Strings(argv: array<Option<Text>>, argc: nat, ghost ss: seq<Text>) returns (r: seq<Text>)
    requires argc == |ss| <= argv.Length && forall i :: 0 <= i < argc ==> argv[i] == Some(ss[i])
    ensures r == ss
  {
    r := [];
    for i := 0 to argc
      invariant r == ss[..i]
    {
      r := r + [argv[i].value];
    }
  }

  /** exec end to end: what the new program decodes is what the old one passed. */
  method Exec(stack: array<Byte>, edx: seq<Option<Text>>, ecx: seq<Option<Text>>, ghost args: seq<Text>, ghost env: seq<Text>)
    returns (sp: int)
    requires UserList(edx, args) && UserList(ecx, env) && AreTexts(args) && AreTexts(env)
    requires stack.Length == SIZE && ImageBytes(args, env) <= SIZE
    modifies stack
    ensures Decodes(stack[..], sp, args, env)
  {
    var argv, argc := CopyList(edx, args);
    var envv, envc := CopyList(ecx, env);
    var a := Strings(argv, argc, args);
    var e := Strings(envv, envc, env);
    sp := BuildStack(stack, a, e);
  }
}
