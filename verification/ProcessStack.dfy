/**
 The stack a program starts with: built downwards by loader.h and loader.cc, read upwards by the scan at the
 beginning of main in main.cc. Words are 32 bits wide, little-endian.
 */
module ProcessStack {
  import opened Bytes

  newtype word = x: int | 0 <= x < 0x1_0000_0000

  function EncodeWord(w: word): (bs: seq<byte>)
    ensures |bs| == 4 && DecodeWord(bs) == w as nat
  {
    var x := if w < 0x8000_0000 then w as int else w as int - 0x1_0000_0000;
    Int32RoundTrip(x);
    EncodeInt32(x)
  }

  ghost function Image(ws: seq<word>): (bs: seq<byte>)
    ensures |bs| == 4 * |ws|
  {
    if ws == [] then [] else EncodeWord(ws[0]) + Image(ws[1..])
  }

  lemma {:induction false} ImageJoins(a: seq<word>, b: seq<word>)
    ensures Image(a + b) == Image(a) + Image(b)
  {
    if a == [] {
      assert a + b == b;
    } else {
      assert (a + b)[1..] == a[1..] + b && (a + b)[0] == a[0];
      ImageJoins(a[1..], b);
    }
  }

  lemma ImageOfZero(rest: seq<byte>)
    ensures EncodeWord(0) + rest == Image([0]) + rest
  {
    assert [0 as word][1..] == [];
  }

  /** The arguments from number i on, with the 0 behind them. */
  ghost function From(args: seq<word>, i: nat): seq<word>
    requires i <= |args|
  {
    args[i..] + [0]
  }

  lemma FromFacts(args: seq<word>, i: nat)
    requires i <= |args|
    ensures From(args, |args|) == [0] && From(args, 0) == args + [0]
    ensures i < |args| ==> [args[i]] + From(args, i + 1) == From(args, i)
  {
  }

  /** One word more in front. */
  lemma ImagePush(w: word, ws: seq<word>, rest: seq<byte>)
    ensures EncodeWord(w) + (Image(ws) + rest) == Image([w] + ws) + rest
  {
    assert ([w] + ws)[1..] == ws;
  }

  ghost function Reversed(ws: seq<word>): (r: seq<word>)
    ensures |r| == |ws|
    ensures forall i :: 0 <= i < |ws| ==> r[i] == ws[|ws| - 1 - i]
  {
    if ws == [] then [] else Reversed(ws[1..]) + [ws[0]]
  }

  lemma ReversedMore(ws: seq<word>, i: nat)
    requires i < |ws|
    ensures Reversed(ws[..i + 1]) == [ws[i]] + Reversed(ws[..i])
  {
  }

  // Reading memory

  function WordAt(mem: seq<byte>, at: nat): word
    requires at + 4 <= |mem|
  {
    DecodeWord(mem[at..at + 4]) as word
  }

  /** Memory holds these words, upwards from an address. */
  ghost predicate Laid(mem: seq<byte>, at: nat, ws: seq<word>) {
    at <= |mem| && Image(ws) <= mem[at..]
  }

  lemma {:induction false} LaidAt(mem: seq<byte>, at: nat, ws: seq<word>, i: nat)
    requires Laid(mem, at, ws) && i < |ws|
    ensures at + 4 * i + 4 <= |mem| && WordAt(mem, at + 4 * i) == ws[i]
    decreases i
  {
    assert Image(ws) == mem[at..at + 4 * |ws|];
    if i == 0 {
      assert mem[at..at + 4] == Image(ws)[..4] == EncodeWord(ws[0]);
    } else {
      assert Image(ws[1..]) == Image(ws)[4..] == mem[at + 4..at + 4 * |ws|];
      LaidAt(mem, at + 4, ws[1..], i - 1);
    }
  }

  /** A block of start-up information: entries of a key that is not 0 and a value, then a 0. */
  datatype Entry = Entry(key: word, value: word)

  ghost function AuxBlock(entries: seq<Entry>): seq<word> {
    if entries == [] then [0] else [entries[0].key, entries[0].value] + AuxBlock(entries[1..])
  }

  const L4RE_AUX: word := 0xf0

  /** The value of the last entry with the key the kernel looks for; 0, its null pointer, if there is none. */
  ghost function LastAux(entries: seq<Entry>): word {
    if entries == [] then 0
    else if entries[|entries| - 1].key == L4RE_AUX then entries[|entries| - 1].value
    else LastAux(entries[..|entries| - 1])
  }

  /** Pointers to strings, none of them null. */
  ghost predicate NonZero(ws: seq<word>) {
    forall i :: 0 <= i < |ws| ==> ws[i] != 0
  }

  /** Entry k is the last one of key 0xf0. */
  ghost predicate IsLastAux(entries: seq<Entry>, k: nat) {
    k < |entries| && entries[k].key == 0xf0 && forall j :: k < j < |entries| ==> entries[j].key != 0xf0
  }

  /** What a program finds above its argument count. */
  ghost function StartUp(args: seq<word>, env: seq<word>, entries: seq<Entry>): seq<word> {
    args + [0] + env + [0] + AuxBlock(entries)
  }

  lemma {:induction false} AuxBlockAt(entries: seq<Entry>, k: nat)
    requires k <= |entries|
    ensures |AuxBlock(entries)| == 2 * |entries| + 1
    ensures k < |entries| ==>
              AuxBlock(entries)[2 * k] == entries[k].key && AuxBlock(entries)[2 * k + 1] == entries[k].value
    ensures k == |entries| ==> AuxBlock(entries)[2 * k] == 0
  {
    if entries != [] {
      var rest := entries[1..];
      AuxBlockAt(rest, if k > 0 then k - 1 else 0);
      assert AuxBlock(entries) == [entries[0].key, entries[0].value] + AuxBlock(rest);
      hide AuxBlock;
      if k > 0 {
        assert AuxBlock(entries)[2 * k] == AuxBlock(rest)[2 * (k - 1)];
        assert k < |entries| ==> AuxBlock(entries)[2 * k + 1] == AuxBlock(rest)[2 * (k - 1) + 1];
      }
    }
  }

  lemma StartUpAt(args: seq<word>, env: seq<word>, entries: seq<Entry>, i: nat)
    requires i < |StartUp(args, env, entries)|
    ensures i < |args| ==> StartUp(args, env, entries)[i] == args[i]
    ensures |args| < i < |args| + 1 + |env| ==> StartUp(args, env, entries)[i] == env[i - |args| - 1]
    ensures i == |args| || i == |args| + 1 + |env| ==> StartUp(args, env, entries)[i] == 0
    ensures i >= |args| + |env| + 2 ==> StartUp(args, env, entries)[i] == AuxBlock(entries)[i - |args| - |env| - 2]
  {
  }

  /** Arguments and environment in memory, each with the 0 behind it. */
  lemma InVectors(mem: seq<byte>, argv: nat, args: seq<word>, env: seq<word>, entries: seq<Entry>, i: nat)
    requires Laid(mem, argv, StartUp(args, env, entries)) && i < |args| + |env| + 2
    ensures argv + 4 * i + 4 <= |mem|
    ensures WordAt(mem, argv + 4 * i) ==
              if i < |args| then args[i]
              else if |args| < i <= |args| + |env| then env[i - |args| - 1]
              else 0
  {
    StartUpAt(args, env, entries, i);
    LaidAt(mem, argv, StartUp(args, env, entries), i);
  }

  /** Entry k of the start-up block in memory. */
  lemma InBlock(mem: seq<byte>, argv: nat, args: seq<word>, env: seq<word>, entries: seq<Entry>, k: nat)
    requires Laid(mem, argv, StartUp(args, env, entries)) && k <= |entries|
    ensures var at := argv + 4 * (|args| + |env| + 2) + 8 * k;
            && at + 4 <= |mem| && WordAt(mem, at) == (if k < |entries| then entries[k].key else 0)
            && (k < |entries| ==> at + 8 <= |mem| && WordAt(mem, at + 4) == entries[k].value)
  {
    var ws, n := StartUp(args, env, entries), |args| + |env| + 2;
    AuxBlockAt(entries, k);
    assert |ws| == n + 2 * |entries| + 1;
    StartUpAt(args, env, entries, n + 2 * k);
    LaidAt(mem, argv, ws, n + 2 * k);
    if k < |entries| {
      StartUpAt(args, env, entries, n + 2 * k + 1);
      LaidAt(mem, argv, ws, n + 2 * k + 1);
    }
    hide StartUp, AuxBlock, Laid, WordAt;
  }

  lemma LastAuxNext(entries: seq<Entry>, k: nat)
    requires k < |entries|
    ensures LastAux(entries[..k + 1]) == if entries[k].key == L4RE_AUX then entries[k].value else LastAux(entries[..k])
  {
    assert entries[..k + 1][..k] == entries[..k];
  }

  /** The scan of main: where the environment and the start-up block begin, and which entry was found. */
  method Scan(mem: seq<byte>, argc: nat, argv: nat,
      ghost args: seq<word>, ghost env: seq<word>, ghost entries: seq<Entry>)
    returns (envp: nat, aux: nat, l4reAux: word)
    requires Laid(mem, argv, StartUp(args, env, entries)) && argc == |args|
    requires NonZero(env) && forall k :: 0 <= k < |entries| ==> entries[k].key != 0
    ensures envp == argv + 4 * (argc + 1)
    ensures aux == envp + 4 * (|env| + 1)
    ensures l4reAux == LastAux(entries)
    ensures (forall k :: 0 <= k < |entries| ==> entries[k].key != 0xf0) ==> l4reAux == 0
    ensures forall k: nat :: IsLastAux(entries, k) ==> l4reAux == entries[k].value
  {
    LastAuxIs(entries);
    hide Laid, StartUp, WordAt, LastAux;
    envp := argv + 4 * argc + 4;
    var auxp := envp;
    ghost var i := 0;
    InVectors(mem, argv, args, env, entries, argc + 1);
    while WordAt(mem, auxp) != 0
      invariant 0 <= i <= |env| && auxp == envp + 4 * i && auxp + 4 <= |mem|
      invariant WordAt(mem, auxp) == if i < |env| then env[i] else 0
      decreases |env| - i
    {
      i := i + 1;
      InVectors(mem, argv, args, env, entries, argc + 1 + i);
      auxp := auxp + 4;
    }
    auxp := auxp + 4;
    aux := auxp;
    l4reAux := 0;
    ghost var k := 0;
    InBlock(mem, argv, args, env, entries, 0);
    assert LastAux([]) == 0 by { NoAux(); }
    while WordAt(mem, auxp) != 0
      invariant 0 <= k <= |entries| && auxp == aux + 8 * k && auxp + 4 <= |mem|
      invariant WordAt(mem, auxp) == if k < |entries| then entries[k].key else 0
      invariant l4reAux == LastAux(entries[..k])
      decreases |entries| - k
    {
      InBlock(mem, argv, args, env, entries, k);
      LastAuxNext(entries, k);
      if WordAt(mem, auxp) == L4RE_AUX {
        l4reAux := WordAt(mem, auxp + 4);
      }
      k := k + 1;
      InBlock(mem, argv, args, env, entries, k);
      auxp := auxp + 8;
    }
    assert entries[..|entries|] == entries;
  }

  lemma {:induction false} LastAuxIs(entries: seq<Entry>)
    ensures (forall k :: 0 <= k < |entries| ==> entries[k].key != 0xf0) ==> LastAux(entries) == 0
    ensures forall k: nat :: IsLastAux(entries, k) ==> LastAux(entries) == entries[k].value
  {
    if entries != [] {
      LastAuxIs(entries[..|entries| - 1]);
      var front := entries[..|entries| - 1];
      assert entries[|entries| - 1].key != 0xf0 ==> forall k: nat :: IsLastAux(entries, k) ==> k < |front|;
      assert forall k :: 0 <= k < |front| ==> front[k] == entries[k];
      forall k: nat | IsLastAux(entries, k) ensures LastAux(entries) == entries[k].value {
        assert k < |front| ==> IsLastAux(front, k);
      }
    }
  }

  lemma NoAux()
    ensures LastAux([]) == 0
  {
  }

  // Building

  class L4ReStack {
    const mem: array<byte>
    var sp: nat

    ghost predicate Valid()
      reads this, mem
    {
      sp <= mem.Length
    }

    /** What is on the stack, from the pointer upwards. */
    ghost function Contents(): seq<byte>
      requires Valid()
      reads this, mem
    {
      mem[sp..]
    }

    constructor (mem: array<byte>)
      ensures Valid() && this.mem == mem && sp == mem.Length && Contents() == []
    {
      this.mem, sp := mem, mem.Length;
    }

    method PushObject(src: seq<byte>)
      requires Valid() && |src| <= sp
      modifies this, mem
      ensures Valid() && sp == old(sp) - |src|
      ensures Contents() == src + old(Contents())
      ensures mem[..sp] == old(mem[..sp - |src|])
    {
      sp := sp - |src|;
      for i := 0 to |src|
        invariant sp == old(sp) - |src|
        invariant mem[sp..sp + i] == src[..i]
        invariant mem[sp + |src|..] == old(mem[sp..])
        invariant mem[..sp] == old(mem[..sp - |src|])
      {
        mem[sp + i] := src[i];
      }
      assert src[..|src|] == src;
      Glue(mem[..], sp, sp + |src|, mem.Length);
      assert mem[..][sp..mem.Length] == mem[sp..] && mem[..][sp + |src|..mem.Length] == mem[sp + |src|..];
      assert mem[..][sp..sp + |src|] == mem[sp..sp + |src|];
    }

    method Push(w: word)
      requires Valid() && 4 <= sp
      modifies this, mem
      ensures Valid() && sp == old(sp) - 4
      ensures Contents() == EncodeWord(w) + old(Contents())
      ensures mem[..sp] == old(mem[..sp - 4])
    {
      PushObject(EncodeWord(w));
    }

    /** Rounds the pointer down to a multiple of the smallest power of two above `size`; for a power of two
        that is twice what was asked for. */
    method Align(size: nat) returns (ghost bits: nat, ghost m: nat)
      requires Valid()
      modifies this`sp
      ensures Valid()
      ensures size < Power(bits) && (bits > 0 ==> Power(bits - 1) <= size)
      ensures sp == m * Power(bits) && sp <= old(sp) < sp + Power(bits)
      ensures size == 1 ==> sp % 2 == 0 && old(sp) - sp < 2
      ensures 2 <= size < 4 ==> sp % 4 == 0 && old(sp) - sp < 4
      ensures 4 <= size < 8 ==> sp % 8 == 0 && old(sp) - sp < 8
      ensures 8 <= size < 16 ==> sp % 16 == 0 && old(sp) - sp < 16
    {
      var b := 0;
      while Power(b) <= size
        invariant b > 0 ==> Power(b - 1) <= size
        decreases size + 1 - Power(b)
      {
        b := b + 1;
      }
      bits := b;
      sp, m := Masked(sp, Power(b));
      SmallPowers(b, size);
    }

    /** Pushes the environment found in this program's own start-up memory, first string first, so that it ends
        up in the opposite order. */
    method PushEnvp(global: seq<byte>, envp: nat, ghost env: seq<word>)
      requires Valid() && Laid(global, envp, env + [0]) && NonZero(env)
      requires 4 * (|env| + 1) <= sp
      modifies this, mem
      ensures Valid() && sp == old(sp) - 4 * (|env| + 1)
      ensures Contents() == Image(Reversed(env) + [0]) + old(Contents())
      ensures mem[..sp] == old(mem[..sp - 4 * (|env| + 1)])
    {
      hide Image, Laid, EncodeWord, WordAt;
      Push(0);
      ImageOfZero(old(Contents()));
      ghost var i := 0;
      var e := envp;
      assert Reversed(env[..0]) + [0] == [0];
      LaidAt(global, envp, env + [0], 0);
      while WordAt(global, e) != 0
        invariant 0 <= i <= |env| && e == envp + 4 * i && e + 4 <= |global|
        invariant WordAt(global, e) == (env + [0])[i]
        invariant Valid() && sp == old(sp) - 4 * (i + 1)
        invariant Contents() == Image(Reversed(env[..i]) + [0]) + old(Contents())
        invariant mem[..sp] == old(mem[..sp - 4 * (i + 1)])
        decreases |env| - i
      {
        LaidAt(global, envp, env + [0], i + 1);
        Push(WordAt(global, e));
        ReversedMore(env, i);
        ImagePush(env[i], Reversed(env[..i]) + [0], old(Contents()));
        assert [env[i]] + (Reversed(env[..i]) + [0]) == Reversed(env[..i + 1]) + [0];
        i := i + 1;
        e := e + 4;
      }
      assert env[..|env|] == env;
    }

    /** Pushes the arguments, last one first, and their number. */
    method PushArgv(global: seq<byte>, argv: nat, argc: nat, ghost args: seq<word>)
      requires Valid() && Laid(global, argv, args) && argc == |args| && argc < 0x8000_0000
      requires 4 * (|args| + 2) <= sp
      modifies this, mem
      ensures Valid() && sp == old(sp) - 4 * (|args| + 2)
      ensures Contents() == Image([argc as word] + args + [0]) + old(Contents())
      ensures mem[..sp] == old(mem[..sp - 4 * (|args| + 2)])
    {
      hide Image, Laid, EncodeWord, WordAt;
      Push(0);
      ImageOfZero(old(Contents()));
      var i := argc - 1;
      FromFacts(args, 0);
      hide From;
      while i >= 0
        invariant -1 <= i < argc
        invariant Valid() && sp == old(sp) - 4 * (argc - i)
        invariant Contents() == Image(From(args, i + 1)) + old(Contents())
        invariant mem[..sp] == old(mem[..sp - 4 * (argc - i)])
      {
        LaidAt(global, argv, args, i);
        Push(WordAt(global, argv + 4 * i));
        ImagePush(args[i], From(args, i + 1), old(Contents()));
        FromFacts(args, i);
        i := i - 1;
      }
      Push(argc as word);
      ImagePush(argc as word, args + [0], old(Contents()));
      assert [argc as word] + (args + [0]) == [argc as word] + args + [0];
    }
  }

  function Power(bits: nat): (p: nat)
    ensures p > 0
  {
    if bits == 0 then 1 else 2 * Power(bits - 1)
  }

  /** Powers of two: they start at one and double. */
  lemma PowersDouble(bits: nat)
    ensures Power(0) == 1 && Power(bits + 1) == Power(bits) + Power(bits)
  {
  }

  lemma {:induction false} PowersGrow(a: nat, b: nat)
    requires a <= b
    ensures Power(a) <= Power(b)
  {
    if a < b {
      PowersGrow(a, b - 1);
      PowersDouble(b - 1);
    }
  }

  /** The smallest power of two above a small size. */
  lemma SmallPowers(bits: nat, size: nat)
    requires size < Power(bits) && (bits > 0 ==> Power(bits - 1) <= size)
    ensures size == 1 ==> Power(bits) == 2
    ensures 2 <= size < 4 ==> Power(bits) == 4
    ensures 4 <= size < 8 ==> Power(bits) == 8
    ensures 8 <= size < 16 ==> Power(bits) == 16
  {
    PowersDouble(0);
    PowersDouble(1);
    PowersDouble(2);
    PowersDouble(3);
    if bits >= 5 {
      PowersGrow(4, bits - 1);
    } else {
      PowersDouble(4);
    }
  }

  /** A number with its low bits cleared, and how many times the bit above them fits in it. */
  method Masked(x: nat, p: nat) returns (r: nat, ghost m: nat)
    requires p > 0
    ensures r == m * p && r <= x < r + p
  {
    m := x / p;
    r := x / p * p;
    assert x == x / p * p + x % p;
  }

  // Round trip

  /** What push_envp and push_argv leave above a start-up block is what the scan expects, with the environment
      in the opposite order. */
  lemma BuiltIsLaid(contents: seq<byte>, args: seq<word>, env: seq<word>, entries: seq<Entry>, rest: seq<byte>)
    requires |args| < 0x8000_0000
    requires contents ==
               Image([|args| as word] + args + [0]) + (Image(Reversed(env) + [0]) + (Image(AuxBlock(entries)) + rest))
    ensures Laid(contents, 4, StartUp(args, Reversed(env), entries))
    ensures |contents| >= 4 && WordAt(contents, 0) as nat == |args|
  {
    hide Image, StartUp, AuxBlock, Reversed, EncodeWord;
    var n, a, e, x := |args| as word, args + [0], Reversed(env) + [0], AuxBlock(entries);
    InThree([n], args, Reversed(env), entries);
    ImageJoins(a + e, x);
    ImageJoins(a, e);
    ImagePush(n, a, Image(e) + (Image(x) + rest));
    Regroup(Image(a), Image(e), Image(x), rest);
    Behind(EncodeWord(n), Image(a + e + x) + rest);
  }

  lemma InThree(n: seq<word>, args: seq<word>, env: seq<word>, entries: seq<Entry>)
    ensures n + args + [0] == n + (args + [0])
    ensures StartUp(args, env, entries) == (args + [0]) + (env + [0]) + AuxBlock(entries)
  {
  }

  lemma Regroup(p: seq<byte>, q: seq<byte>, r: seq<byte>, s: seq<byte>)
    ensures p + (q + (r + s)) == p + q + r + s
  {
  }

  lemma Behind(p: seq<byte>, q: seq<byte>)
    ensures (p + q)[0..|p|] == p && (p + q)[|p|..] == q
  {
  }

  lemma ReversedNonZero(env: seq<word>)
    requires NonZero(env)
    ensures NonZero(Reversed(env))
  {
  }

  /** A loader starts a program: above a start-up block it pushes its own environment and arguments, and the
      program's scan finds the same arguments in order, the environment in the opposite order, the block where
      it was, and the last entry for the kernel. */
  method StartProgram(stack: L4ReStack, global: seq<byte>, argv: nat, envp: nat, argc: nat,
      ghost args: seq<word>, ghost env: seq<word>, ghost entries: seq<Entry>, ghost rest: seq<byte>)
    returns (newEnvp: nat, newAux: nat, l4reAux: word)
    requires stack.Valid() && stack.Contents() == Image(AuxBlock(entries)) + rest
    requires forall k :: 0 <= k < |entries| ==> entries[k].key != 0
    requires Laid(global, argv, args) && Laid(global, envp, env + [0]) && NonZero(env)
    requires argc == |args| && argc < 0x8000_0000 && 4 * (|args| + |env| + 3) <= stack.sp
    modifies stack, stack.mem
    ensures stack.Valid() && stack.sp + 4 <= stack.mem.Length
    ensures var c := stack.Contents();
            && WordAt(c, 0) as nat == |args|
            && Laid(c, 4, args)
            && Laid(c, newEnvp, Reversed(env) + [0])
    ensures stack.sp + newAux == old(stack.sp) && stack.mem[stack.sp + newAux..] == old(stack.Contents())
    ensures l4reAux == LastAux(entries)
    ensures (forall k :: 0 <= k < |entries| ==> entries[k].key != 0xf0) ==> l4reAux == 0
    ensures forall k: nat :: IsLastAux(entries, k) ==> l4reAux == entries[k].value
  {
    ghost var below := stack.Contents();
    stack.PushEnvp(global, envp, env);
    stack.PushArgv(global, argv, argc, args);
    ghost var c := stack.Contents();
    BuiltIsLaid(c, args, env, entries, rest);
    ReversedNonZero(env);
    PartsAreLaid(c, 4, args, Reversed(env), entries);
    newEnvp, newAux, l4reAux := Scan(stack.mem[stack.sp..], argc, 4, args, Reversed(env), entries);
    assert c[newAux..] == below;
  }

  lemma PartsAreLaid(mem: seq<byte>, at: nat, args: seq<word>, env: seq<word>, entries: seq<Entry>)
    requires Laid(mem, at, StartUp(args, env, entries))
    ensures Laid(mem, at, args)
    ensures Laid(mem, at + 4 * (|args| + 1), env + [0])
  {
    var a, e, x := args + [0], env + [0], AuxBlock(entries);
    assert StartUp(args, env, entries) == a + e + x;
    ImageJoins(a + e, x);
    ImageJoins(a, e);
    ImageJoins(args, [0]);
    hide Image;
    assert Image(a + e + x) == mem[at..at + 4 * |a + e + x|];
    assert Image(e) == mem[at + 4 * |a|..at + 4 * |a| + 4 * |e|];
  }
}
