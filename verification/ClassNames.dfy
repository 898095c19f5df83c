/**
 Class names and command lines, in ned.lua: `mangle_class` turns a scoped C++ class name into the nested-name
 form of section 5.1.2 of the Itanium C++ ABI, `split_args` cuts a command line into words.
 */
module ClassNames {

  datatype Option<T> = None | Some(value: T)

  /** The characters of Lua's class %s. */
  predicate IsSpace(c: char): (r: bool)
    ensures r <==> c in SPACES
  {
    c == ' ' || '\t' <= c <= '\r'
  }

  /** Blank, tabs, line feed, form feed and carriage return. */
  const SPACES := [' ', '\t', '\n', '\U{B}', '\U{C}', '\r']

  predicate IsScope(c: char) {
    c == ':' || IsSpace(c)
  }

  predicate IsDigit(c: char) {
    '0' <= c <= '9'
  }

  // Pattern matching: maximal runs of characters that are no separators

  function RunLength(s: string, sep: char -> bool): (n: nat)
    ensures n <= |s|
    ensures forall i :: 0 <= i < n ==> !sep(s[i])
    ensures n < |s| ==> sep(s[n])
  {
    if s == [] || sep(s[0]) then 0 else 1 + RunLength(s[1..], sep)
  }

  function Tokens(s: string, sep: char -> bool): seq<string> {
    if s == [] then []
    else if sep(s[0]) then Tokens(s[1..], sep)
    else [s[..RunLength(s, sep)]] + Tokens(s[RunLength(s, sep)..], sep)
  }

  /** A word is not empty and holds no separator. */
  ghost predicate Word(w: string, sep: char -> bool) {
    w != [] && forall i :: 0 <= i < |w| ==> !sep(w[i])
  }

  ghost predicate Words(ws: seq<string>, sep: char -> bool) {
    forall k :: 0 <= k < |ws| ==> Word(ws[k], sep)
  }

  lemma {:induction false} TokensAreWords(s: string, sep: char -> bool)
    ensures Words(Tokens(s, sep), sep)
  {
    if s != [] {
      if sep(s[0]) {
        TokensAreWords(s[1..], sep);
      } else {
        TokensAreWords(s[RunLength(s, sep)..], sep);
      }
    }
  }

  lemma TokensSkip(s: string, sep: char -> bool, i: nat)
    requires i < |s| && sep(s[i])
    ensures Tokens(s[i..], sep) == Tokens(s[i + 1..], sep)
  {
    assert s[i..][1..] == s[i + 1..];
  }

  lemma RunContinues(s: string, sep: char -> bool, i: nat)
    requires i <= |s|
    ensures RunLength(s[i..], sep) == if i == |s| || sep(s[i]) then 0 else 1 + RunLength(s[i + 1..], sep)
  {
    assert i < |s| ==> s[i..][1..] == s[i + 1..];
  }

  lemma NoTokens(sep: char -> bool)
    ensures Tokens([], sep) == []
  {
  }

  lemma TokensTake(s: string, sep: char -> bool, from: nat, to: nat)
    requires from < to <= |s| && RunLength(s[from..], sep) == to - from
    ensures Tokens(s[from..], sep) == [s[from..to]] + Tokens(s[to..], sep)
  {
    assert s[from..][to - from..] == s[to..];
    assert s[from..][..to - from] == s[from..to];
  }

  lemma {:induction false} TokensAgree(s: string, p: char -> bool, q: char -> bool)
    requires forall c :: p(c) <==> q(c)
    ensures RunLength(s, p) == RunLength(s, q) && Tokens(s, p) == Tokens(s, q)
  {
    if s != [] {
      TokensAgree(s[1..], p, q);
      if !p(s[0]) {
        TokensAgree(s[RunLength(s, p)..], p, q);
      }
    }
  }

  lemma SpacesWrittenOut(s: string)
    ensures Tokens(s, IsSpace) == Tokens(s, (c: char) => c in [' ', '\t', '\n', '\U{B}', '\U{C}', '\r'])
  {
    TokensAgree(s, IsSpace, (c: char) => c in [' ', '\t', '\n', '\U{B}', '\U{C}', '\r']);
  }

  lemma ScopesWrittenOut(s: string)
    ensures Tokens(s, IsScope) == Tokens(s, (c: char) => c in [':', ' ', '\t', '\n', '\U{B}', '\U{C}', '\r'])
  {
    TokensAgree(s, IsScope, (c: char) => c in [':', ' ', '\t', '\n', '\U{B}', '\U{C}', '\r']);
  }

  lemma SeparatorSkips(c: char, s: string, sep: char -> bool)
    requires sep(c)
    ensures Tokens([c] + s, sep) == Tokens(s, sep)
  {
    assert ([c] + s)[1..] == s;
  }

  /** The next match of the pattern from position `at`: its bounds, or nothing left. */
  method NextMatch(s: string, sep: char -> bool, at: nat) returns (from: nat, to: nat)
    requires at <= |s|
    ensures at <= from <= to <= |s|
    ensures forall i :: at <= i < from ==> sep(s[i])
    ensures forall i :: from <= i < to ==> !sep(s[i])
    ensures to < |s| ==> from < to && sep(s[to])
    ensures from == to ==> Tokens(s[at..], sep) == []
    ensures from < to ==> Tokens(s[at..], sep) == [s[from..to]] + Tokens(s[to..], sep)
  {
    hide RunLength, Tokens;
    from := at;
    while from < |s| && sep(s[from])
      invariant at <= from <= |s|
      invariant Tokens(s[from..], sep) == Tokens(s[at..], sep)
      invariant forall i :: at <= i < from ==> sep(s[i])
    {
      TokensSkip(s, sep, from);
      from := from + 1;
    }
    to := from;
    while to < |s| && !sep(s[to])
      invariant from <= to <= |s| && forall i :: from <= i < to ==> !sep(s[i])
      invariant to - from + RunLength(s[to..], sep) == RunLength(s[from..], sep)
    {
      RunContinues(s, sep, to);
      to := to + 1;
    }
    RunContinues(s, sep, to);
    NoTokens(sep);
    if from < to {
      TokensTake(s, sep, from, to);
    }
  }

  // Mangling

  function Decimal(n: nat): (s: string)
    ensures s != [] && forall i :: 0 <= i < |s| ==> IsDigit(s[i])
    ensures |s| > 1 ==> s[0] != '0'
    ensures n > 0 ==> s[0] != '0'
  {
    var last := ['0' + (n % 10) as char];
    if n < 10 then last else Decimal(n / 10) + last
  }

  function Value(s: string): nat
    requires forall i :: 0 <= i < |s| ==> IsDigit(s[i])
  {
    if s == [] then 0
    else
      assert IsDigit(s[|s| - 1]);
      10 * Value(s[..|s| - 1]) + (s[|s| - 1] as int - '0' as int)
  }

  ghost function Parts(names: seq<string>): string {
    if names == [] then [] else Decimal(|names[0]|) + names[0] + Parts(names[1..])
  }

  ghost function Mangled(names: seq<string>): string {
    "N" + Parts(names) + "E"
  }

  lemma NoParts()
    ensures Parts([]) == ""
  {
  }

  lemma {:induction false} PartsSnoc(names: seq<string>, name: string)
    ensures Parts(names + [name]) == Parts(names) + (Decimal(|name|) + name)
  {
    if names == [] {
      assert [name][1..] == [];
    } else {
      assert (names + [name])[1..] == names[1..] + [name];
      PartsSnoc(names[1..], name);
    }
  }

  method MangleClass(n: string) returns (m: string)
    ensures m == Mangled(Tokens(n, IsScope))
    ensures m == Mangled(Tokens(n, (c: char) => c in [':', ' ', '\t', '\n', '\U{B}', '\U{C}', '\r']))
  {
    hide Tokens, RunLength, Parts, Decimal;
    ScopesWrittenOut(n);
    NoTokens(IsScope);
    NoParts();
    assert n[0..] == n && n[|n|..] == [];
    m := "N";
    ghost var names: seq<string> := [];
    var at := 0;
    while at < |n|
      invariant 0 <= at <= |n|
      invariant Tokens(n, IsScope) == names + Tokens(n[at..], IsScope)
      invariant m == "N" + Parts(names)
    {
      var from, to := NextMatch(n, IsScope, at);
      if from == to {
        break;
      }
      var i := n[from..to];
      PartsSnoc(names, i);
      m := m + Decimal(|i|) + i;
      names := names + [i];
      at := to;
    }
    m := m + "E";
    assert Tokens(n, IsScope) == names;
  }

  // Reading a mangled name

  function Leading(s: string): (k: nat)
    ensures k <= |s|
    ensures forall i :: 0 <= i < k ==> IsDigit(s[i])
    ensures k < |s| ==> !IsDigit(s[k])
  {
    if s == [] || !IsDigit(s[0]) then 0 else 1 + Leading(s[1..])
  }

  /** Reads names, each behind its length, up to the final E. */
  function ReadParts(s: string): Option<seq<string>> {
    if s == "E" then Some([])
    else if Leading(s) == 0 then None
    else
      var n, rest := Value(s[..Leading(s)]), s[Leading(s)..];
      if n > |rest| then None
      else if ReadParts(rest[n..]).None? then None
      else Some([rest[..n]] + ReadParts(rest[n..]).value)
  }

  function Demangled(s: string): Option<seq<string>> {
    if s == [] || s[0] != 'N' then None else ReadParts(s[1..])
  }

  lemma {:induction false} ValueOfDecimal(n: nat)
    ensures Value(Decimal(n)) == n
  {
    if n >= 10 {
      ValueOfDecimal(n / 10);
      var s := Decimal(n);
      assert s[..|s| - 1] == Decimal(n / 10);
    }
  }

  /** More digits behind a positive number make it larger. */
  lemma {:induction false} ValueGrows(a: string, b: string)
    requires forall i :: 0 <= i < |a| ==> IsDigit(a[i])
    requires forall i :: 0 <= i < |b| ==> IsDigit(b[i])
    requires Value(a) > 0
    ensures forall i :: 0 <= i < |a + b| ==> IsDigit((a + b)[i])
    ensures Value(a + b) >= Value(a)
    ensures b != [] ==> Value(a + b) > Value(a)
  {
    if b == [] {
      assert a + b == a;
    } else {
      assert (a + b)[..|a + b| - 1] == a + b[..|b| - 1];
      ValueGrows(a, b[..|b| - 1]);
    }
  }

  lemma {:induction false} LeadingOf(a: string, b: string)
    requires forall i :: 0 <= i < |a| ==> IsDigit(a[i])
    ensures Leading(a + b) == |a| + Leading(b)
  {
    if a == [] {
      assert a + b == b;
    } else {
      assert (a + b)[1..] == a[1..] + b;
      LeadingOf(a[1..], b);
    }
  }

  /** Reading starts with the longest number in front. */
  lemma ReadsNumber(d: string, rest: string)
    requires d != [] && (forall i :: 0 <= i < |d| ==> IsDigit(d[i])) && Leading(rest) == 0
    ensures ReadParts(d + rest) ==
            if Value(d) > |rest| then None
            else if ReadParts(rest[Value(d)..]).None? then None
            else Some([rest[..Value(d)]] + ReadParts(rest[Value(d)..]).value)
  {
    var s := d + rest;
    LeadingOf(d, rest);
    assert s != "E" by {
      assert s[0] == d[0];
    }
    assert s[..|d|] == d && s[|d|..] == rest;
    hide Leading, Value;
  }

  /** One name behind its length, read from the front of a text. */
  lemma ReadsOne(name: string, rest: string)
    requires name != [] && !IsDigit(name[0])
    ensures ReadParts(Decimal(|name|) + name + rest) ==
            if ReadParts(rest).None? then None else Some([name] + ReadParts(rest).value)
  {
    hide ReadParts, Decimal;
    ReadsNumber(Decimal(|name|), name + rest);
    ValueOfDecimal(|name|);
    assert (name + rest)[..|name|] == name && (name + rest)[|name|..] == rest;
    assert Decimal(|name|) + (name + rest) == Decimal(|name|) + name + rest;
  }

  /** A name with a digit in front is never read back: its digits are taken for part of the length. */
  lemma MisreadsOne(name: string, rest: string)
    requires name != [] && IsDigit(name[0])
    ensures var r := ReadParts(Decimal(|name|) + name + rest); r.Some? ==> r.value != [] && |r.value[0]| > |name|
  {
    hide ReadParts, Decimal, Value;
    var k := Leading(name + rest);
    var digits, behind := (name + rest)[..k], (name + rest)[k..];
    var d := Decimal(|name|);
    assert Leading(behind) == 0;
    ReadsNumber(d + digits, behind);
    ValueOfDecimal(|name|);
    ValueGrows(d, digits);
    assert digits + behind == name + rest;
    assert (d + digits) + behind == d + name + rest;
  }

  ghost predicate StartsWithDigit(name: string) {
    name != [] && IsDigit(name[0])
  }

  ghost predicate NoneStartsWithDigit(names: seq<string>) {
    forall k :: 0 <= k < |names| ==> !StartsWithDigit(names[k])
  }

  lemma FirstAndRest(names: seq<string>)
    requires names != []
    ensures NoneStartsWithDigit(names) <==> !StartsWithDigit(names[0]) && NoneStartsWithDigit(names[1..])
    ensures forall r: seq<string> :: [names[0]] + r == names <==> r == names[1..]
  {
    assert names == [names[0]] + names[1..];
    forall r: seq<string> ensures [names[0]] + r == names <==> r == names[1..] {
      assert ([names[0]] + r)[1..] == r;
    }
  }

  lemma {:induction false} PartsReadBack(names: seq<string>)
    requires forall k :: 0 <= k < |names| ==> names[k] != []
    ensures ReadParts(Parts(names) + "E") == Some(names)
       <==> forall k :: 0 <= k < |names| ==> !StartsWithDigit(names[k])
  {
    if names == [] {
      assert Parts(names) + "E" == "E";
    } else {
      var name, rest := names[0], names[1..];
      assert Parts(names) + "E" == Decimal(|name|) + name + (Parts(rest) + "E");
      FirstAndRest(names);
      hide ReadParts, Parts, Decimal;
      if StartsWithDigit(name) {
        MisreadsOne(name, Parts(rest) + "E");
      } else {
        ReadsOne(name, Parts(rest) + "E");
        PartsReadBack(rest);
        assert NoneStartsWithDigit(names) <==> NoneStartsWithDigit(rest);
      }
    }
  }

  /** A mangled name can be read back exactly when no component starts with a digit. */
  lemma MangledReadsBack(n: string)
    ensures Demangled(Mangled(Tokens(n, IsScope))) == Some(Tokens(n, IsScope))
       <==> forall k :: 0 <= k < |Tokens(n, IsScope)| ==> !StartsWithDigit(Tokens(n, IsScope)[k])
  {
    var names := Tokens(n, IsScope);
    TokensAreWords(n, IsScope);
    assert forall k :: 0 <= k < |names| ==> Word(names[k], IsScope);
    assert Mangled(names)[1..] == Parts(names) + "E";
    PartsReadBack(names);
  }

  /** Two class names of C++ identifiers are mangled alike only if they have the same components. */
  lemma MangledApart(a: string, b: string)
    requires forall k :: 0 <= k < |Tokens(a, IsScope)| ==> !StartsWithDigit(Tokens(a, IsScope)[k])
    requires forall k :: 0 <= k < |Tokens(b, IsScope)| ==> !StartsWithDigit(Tokens(b, IsScope)[k])
    ensures Mangled(Tokens(a, IsScope)) == Mangled(Tokens(b, IsScope)) <==> Tokens(a, IsScope) == Tokens(b, IsScope)
  {
    MangledReadsBack(a);
    MangledReadsBack(b);
  }

  const SCOPED := "1:abcdefgh:x"
  const FLAT := "8abcdefgh1x"

  lemma ComponentsOfScoped()
    ensures Tokens(SCOPED, IsScope) == ["1", "abcdefgh", "x"]
    ensures Tokens(FLAT, IsScope) == [FLAT]
  {
    hide Tokens, RunLength;
    NoTokens(IsScope);
    TokensOfWord("x", "", IsScope);
    assert "x" + "" == "x";
    SeparatorSkips(':', "x", IsScope);
    TokensOfWord("abcdefgh", ":x", IsScope);
    SeparatorSkips(':', "abcdefgh:x", IsScope);
    TokensOfWord("1", ":abcdefgh:x", IsScope);
    assert "1" + ":abcdefgh:x" == SCOPED && ":" + "abcdefgh:x" == ":abcdefgh:x";
    assert "abcdefgh" + ":x" == "abcdefgh:x" && ":" + "x" == ":x";
    TokensOfWord(FLAT, "", IsScope);
    assert FLAT + "" == FLAT;
  }

  lemma PartsFirst(name: string, rest: seq<string>)
    ensures Parts([name] + rest) == Decimal(|name|) + name + Parts(rest)
  {
    assert ([name] + rest)[1..] == rest;
  }

  lemma PartsCollide()
    ensures Mangled(["1", "abcdefgh", "x"]) == Mangled([FLAT])
  {
    assert Decimal(1) == "1" && Decimal(8) == "8" && Decimal(11) == "11";
    assert Parts([]) == "";
    hide Parts, Decimal;
    PartsFirst("x", []);
    PartsFirst("abcdefgh", ["x"]);
    PartsFirst("1", ["abcdefgh", "x"]);
    PartsFirst(FLAT, []);
    assert ["x"] + [] == ["x"] && ["abcdefgh"] + ["x"] == ["abcdefgh", "x"] && [FLAT] + [] == [FLAT];
    assert ["1"] + ["abcdefgh", "x"] == ["1", "abcdefgh", "x"];
    assert "1" + "x" + "" == "1x" && "8" + "abcdefgh" + "1x" == FLAT && "1" + "1" == "11" && |FLAT| == 11;
    calc {
      Parts(["1", "abcdefgh", "x"]);
      Decimal(1) + "1" + Parts(["abcdefgh", "x"]);
      "11" + FLAT;
      "11" + FLAT + "";
      Parts([FLAT]);
    }
  }

  /** With digits in front, mangle_class gives two names of different components the same result, so that no
      reader could tell them apart. */
  lemma DigitsCollide()
    ensures Tokens(SCOPED, IsScope) != Tokens(FLAT, IsScope)
    ensures Mangled(Tokens(SCOPED, IsScope)) == Mangled(Tokens(FLAT, IsScope))
  {
    ComponentsOfScoped();
    PartsCollide();
  }

  // Splitting a command line

  /** An argument of the program to start: a word, or the environment table handed through. */
  datatype Arg<E> = Text(word: string) | Environment(env: E)

  ghost function Texts<E>(words: seq<string>): seq<Arg<E>> {
    seq(|words|, k requires 0 <= k < |words| => Text(words[k]))
  }

  method SplitArgs<E>(cmd: string, posixEnv: Option<E>) returns (a: seq<Arg<E>>)
    ensures a == Texts(Tokens(cmd, IsSpace)) + if posixEnv.None? then [] else [Environment(posixEnv.value)]
    ensures Tokens(cmd, IsSpace) == Tokens(cmd, (c: char) => c in [' ', '\t', '\n', '\U{B}', '\U{C}', '\r'])
  {
    hide Tokens, RunLength;
    SpacesWrittenOut(cmd);
    NoTokens(IsSpace);
    assert cmd[0..] == cmd && cmd[|cmd|..] == [];
    a := [];
    ghost var words: seq<string> := [];
    var at := 0;
    while at < |cmd|
      invariant 0 <= at <= |cmd|
      invariant Tokens(cmd, IsSpace) == words + Tokens(cmd[at..], IsSpace)
      invariant a == Texts(words)
    {
      var from, to := NextMatch(cmd, IsSpace, at);
      if from == to {
        break;
      }
      a := a + [Text(cmd[from..to])];
      words := words + [cmd[from..to]];
      at := to;
    }
    assert Tokens(cmd, IsSpace) == words;
    if posixEnv.Some? {
      a := a + [Environment(posixEnv.value)];
    }
  }

  ghost function Joined(words: seq<string>): string {
    if words == [] then [] else if |words| == 1 then words[0] else words[0] + " " + Joined(words[1..])
  }

  lemma {:induction false} RunOfWord(w: string, rest: string, sep: char -> bool)
    requires forall i :: 0 <= i < |w| ==> !sep(w[i])
    requires rest != [] ==> sep(rest[0])
    ensures RunLength(w + rest, sep) == |w|
  {
    if w == [] {
      assert w + rest == rest;
    } else {
      assert (w + rest)[1..] == w[1..] + rest;
      RunOfWord(w[1..], rest, sep);
    }
  }

  lemma TokensOfWord(w: string, rest: string, sep: char -> bool)
    requires Word(w, sep) && (rest != [] ==> sep(rest[0]))
    ensures Tokens(w + rest, sep) == [w] + Tokens(rest, sep)
  {
    RunOfWord(w, rest, sep);
    assert (w + rest)[..|w|] == w && (w + rest)[|w|..] == rest;
  }

  /** Any words, joined by single spaces, are split into just those words. */
  lemma {:induction false} JoinedSplits(words: seq<string>)
    requires Words(words, IsSpace)
    ensures Tokens(Joined(words), IsSpace) == words
  {
    hide Tokens, RunLength;
    NoTokens(IsSpace);
    if words != [] {
      var rest := words[1..];
      assert Word(words[0], IsSpace);
      assert forall k :: 0 <= k < |rest| ==> rest[k] == words[k + 1];
      JoinedSplits(rest);
      if rest == [] {
        assert words[0] + [] == words[0];
        TokensOfWord(words[0], [], IsSpace);
      } else {
        assert words[0] + " " + Joined(rest) == words[0] + (" " + Joined(rest));
        TokensOfWord(words[0], " " + Joined(rest), IsSpace);
        SeparatorSkips(' ', Joined(rest), IsSpace);
      }
    }
  }

  /** So splitting, joining and splitting again changes nothing, and no argument is empty or holds white space. */
  lemma SplitJoinSplit(cmd: string)
    ensures Words(Tokens(cmd, IsSpace), IsSpace)
    ensures Tokens(Joined(Tokens(cmd, IsSpace)), IsSpace) == Tokens(cmd, IsSpace)
  {
    TokensAreWords(cmd, IsSpace);
    JoinedSplits(Tokens(cmd, IsSpace));
  }

  ghost function Without(s: string, sep: char -> bool): string {
    if s == [] then [] else (if sep(s[0]) then [] else [s[0]]) + Without(s[1..], sep)
  }

  ghost function Concat(words: seq<string>): string {
    if words == [] then [] else words[0] + Concat(words[1..])
  }

  lemma {:induction false} RunIsKept(s: string, n: nat, sep: char -> bool)
    requires n <= |s| && forall i :: 0 <= i < n ==> !sep(s[i])
    ensures Without(s, sep) == s[..n] + Without(s[n..], sep)
  {
    if n > 0 {
      RunIsKept(s[1..], n - 1, sep);
      assert s[..n] == [s[0]] + s[1..][..n - 1] && s[1..][n - 1..] == s[n..];
    } else {
      assert s[n..] == s;
    }
  }

  /** Splitting loses nothing but the separators. */
  lemma {:induction false} TokensKeepTheText(s: string, sep: char -> bool)
    ensures Concat(Tokens(s, sep)) == Without(s, sep)
  {
    if s != [] {
      if sep(s[0]) {
        TokensKeepTheText(s[1..], sep);
      } else {
        var n := RunLength(s, sep);
        TokensKeepTheText(s[n..], sep);
        RunIsKept(s, n, sep);
        assert ([s[..n]] + Tokens(s[n..], sep))[1..] == Tokens(s[n..], sep);
      }
    }
  }
}
