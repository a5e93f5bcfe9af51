/** The two line tokenisers of the shell: `parse` splits an input line
    into pipeline stages on '|', `makecmd` splits one stage into an
    argument vector on space, tab and newline. Both run a `strtok` loop
    that copies every token into a heap array of initial capacity 10,
    doubled on demand, and end the array with a NULL slot. */
module Tokenizer {

  /** One slot of a C `char **` array: a string or the NULL terminator. */
  datatype Slot = Null | Str(text: string)

  /** Initial capacity of the token array. */
  const InitialCapacity: nat := 10

  /** Delimiters of `makecmd`. */
  const Blanks: set<char> := {' ', '\t', '\n'}

  /** Delimiter of `parse`. */
  const Bar: set<char> := {'|'}

  /** A token: non-empty and free of delimiters. */
  predicate IsToken(t: string, delims: set<char>)
  {
    t != [] && forall k :: 0 <= k < |t| ==> t[k] !in delims
  }

  /** Length of the run of non-delimiters at the front of `s`. */
  function RunLength(s: string, delims: set<char>): (n: nat)
    ensures n <= |s|
    ensures forall k :: 0 <= k < n ==> s[k] !in delims
    ensures n < |s| ==> s[n] in delims
  {
    if s == [] || s[0] in delims then 0 else 1 + RunLength(s[1..], delims)
  }

  /** The tokens `strtok` returns, in order: skip delimiters, take the
      longest run of non-delimiters, continue after it. */
  function Split(s: string, delims: set<char>): (toks: seq<string>)
    ensures |toks| <= |s|
    decreases |s|
  {
    if s == [] then []
    else if s[0] in delims then Split(s[1..], delims)
    else
      var n := RunLength(s, delims);
      [s[..n]] + Split(s[n..], delims)
  }

  /** Every token is non-empty and free of delimiters. */
  lemma {:induction false} SplitTokens(s: string, delims: set<char>)
    ensures forall k :: 0 <= k < |Split(s, delims)| ==> IsToken(Split(s, delims)[k], delims)
    decreases |s|
  {
    if s != [] {
      if s[0] in delims {
        SplitTokens(s[1..], delims);
      } else {
        var n := RunLength(s, delims);
        SplitTokens(s[n..], delims);
      }
    }
  }

  /** The run length is the only prefix length that ends at a delimiter
      or at the end of the string. */
  lemma {:induction false} RunLengthUnique(s: string, delims: set<char>, n: nat)
    requires n <= |s|
    requires forall k :: 0 <= k < n ==> s[k] !in delims
    requires n < |s| ==> s[n] in delims
    ensures RunLength(s, delims) == n
  {
    if n > 0 {
      RunLengthUnique(s[1..], delims, n - 1);
    }
  }

  /** A single delimiter-free word is exactly one token. */
  lemma SplitWord(w: string, delims: set<char>)
    requires IsToken(w, delims)
    ensures Split(w, delims) == [w]
  {
    RunLengthUnique(w, delims, |w|);
    assert w[..|w|] == w;
    assert w[|w|..] == [];
  }

  /** A delimiter always separates: what lies on its left and on its
      right are tokenised independently, and no empty token appears. */
  lemma {:induction false} SplitAtDelimiter(a: string, c: char, b: string, delims: set<char>)
    requires c in delims
    ensures Split(a + [c] + b, delims) == Split(a, delims) + Split(b, delims)
    decreases |a|
  {
    var s := a + [c] + b;
    if a == [] {
      assert s[1..] == b;
    } else if a[0] in delims {
      assert s[1..] == a[1..] + [c] + b;
      SplitAtDelimiter(a[1..], c, b, delims);
    } else {
      var m := RunLength(a, delims);
      RunLengthUnique(s, delims, m);
      assert s[..m] == a[..m];
      assert s[m..] == a[m..] + [c] + b;
      SplitAtDelimiter(a[m..], c, b, delims);
    }
  }

  /** The fields of `ws` joined by the delimiter `c`. */
  function Join(ws: seq<string>, c: char): string
  {
    if ws == [] then []
    else if |ws| == 1 then ws[0]
    else ws[0] + [c] + Join(ws[1..], c)
  }

  /** The non-empty fields of `ws`, in order. */
  function NonEmpty(ws: seq<string>): seq<string>
  {
    if ws == [] then []
    else if ws[0] == [] then NonEmpty(ws[1..])
    else [ws[0]] + NonEmpty(ws[1..])
  }

  /** Tokenising a line made of delimiter-free fields joined by one
      delimiter yields exactly the non-empty fields, in order: the tokens
      are the maximal runs of non-delimiters, and empty fields vanish. */
  lemma {:induction false} SplitFields(ws: seq<string>, c: char, delims: set<char>)
    requires c in delims
    requires forall i, k :: 0 <= i < |ws| && 0 <= k < |ws[i]| ==> ws[i][k] !in delims
    ensures Split(Join(ws, c), delims) == NonEmpty(ws)
  {
    if ws == [] {
    } else {
      if ws[0] != [] {
        SplitWord(ws[0], delims);
      }
      if |ws| > 1 {
        SplitFields(ws[1..], c, delims);
        SplitAtDelimiter(ws[0], c, Join(ws[1..], c), delims);
      }
    }
  }

  /** `parse` drops the empty field between two bars. */
  lemma ParseDropsEmptyField()
    ensures Split("a||b", Bar) == ["a", "b"]
  {
    assert "a||b" == Join(["a", "", "b"], '|');
    SplitFields(["a", "", "b"], '|', Bar);
  }

  /** `parse` keeps a field made only of blanks. */
  lemma ParseKeepsBlankField()
    ensures Split(" |ls\n", Bar) == [" ", "ls\n"]
  {
    assert " |ls\n" == Join([" ", "ls\n"], '|');
    SplitFields([" ", "ls\n"], '|', Bar);
  }

  /** A delimiter at the end adds no token. */
  lemma SplitTrailingDelimiter(a: string, c: char, delims: set<char>)
    requires c in delims
    ensures Split(a + [c], delims) == Split(a, delims)
  {
    SplitAtDelimiter(a, c, [], delims);
    assert a + [c] + [] == a + [c];
  }

  /** A delimiter at the front adds no token. */
  lemma SplitLeadingDelimiter(c: char, b: string, delims: set<char>)
    requires c in delims
    ensures Split([c] + b, delims) == Split(b, delims)
  {
    assert ([c] + b)[1..] == b;
  }

  /** `makecmd` splits on any run of blanks and drops the newline:
      "ls \t-l\n" gives "ls" and "-l". */
  lemma MakeCmdDropsBlanks(cmd: string, opt: string)
    requires IsToken(cmd, Blanks) && IsToken(opt, Blanks)
    ensures Split(cmd + [' ', '\t'] + opt + ['\n'], Blanks) == [cmd, opt]
  {
    var mid := ['\t'] + (opt + ['\n']);
    assert cmd + [' ', '\t'] + opt + ['\n'] == cmd + [' '] + mid;
    SplitWord(opt, Blanks);
    SplitTrailingDelimiter(opt, '\n', Blanks);
    SplitLeadingDelimiter('\t', opt + ['\n'], Blanks);
    SplitWord(cmd, Blanks);
    SplitAtDelimiter(cmd, ' ', mid, Blanks);
  }

  /** Every field non-empty: nothing is dropped. */
  lemma {:induction false} NonEmptyKeepsTokens(ws: seq<string>)
    requires forall i :: 0 <= i < |ws| ==> ws[i] != []
    ensures NonEmpty(ws) == ws
  {
    if ws != [] {
      NonEmptyKeepsTokens(ws[1..]);
    }
  }

  /** Capacity of the token array once `n` tokens are stored, with the
      growth test `command_count >= capacity` as written. */
  function CapacityAsWritten(n: nat): (cap: nat)
    ensures InitialCapacity <= cap && n <= cap
  {
    if n == 0 then InitialCapacity
    else
      var c := CapacityAsWritten(n - 1);
      if n - 1 >= c then 2 * c else c
  }

  function Pow2(k: nat): (p: nat)
    ensures p >= 1
  {
    if k == 0 then 1 else 2 * Pow2(k - 1)
  }

  /** As written, the capacity after `n` tokens is the least 10 * 2^k
      that holds them. */
  lemma {:induction false} CapacityAsWrittenClosed(k: nat, n: nat)
    requires if k == 0 then n <= InitialCapacity
             else InitialCapacity * Pow2(k - 1) < n <= InitialCapacity * Pow2(k)
    ensures CapacityAsWritten(n) == InitialCapacity * Pow2(k)
    decreases n
  {
    if n > 0 {
      if k == 0 {
        CapacityAsWrittenClosed(0, n - 1);
      } else if n - 1 > InitialCapacity * Pow2(k - 1) {
        CapacityAsWrittenClosed(k, n - 1);
      } else {
        CapacityAsWrittenClosed(k - 1, n - 1);
      }
    }
  }

  /** As written, a line with 10, 20, 40, ... tokens fills the array
      exactly, so the NULL terminator goes to index capacity, one past
      the end of the allocation. */
  lemma TerminatorOutOfBoundsAsWritten(k: nat)
    ensures CapacityAsWritten(InitialCapacity * Pow2(k)) == InitialCapacity * Pow2(k)
  {
    CapacityAsWrittenClosed(k, InitialCapacity * Pow2(k));
  }

  /** A line that triggers it: ten arguments separated by single
      spaces, such as "a b c d e f g h i j". */
  lemma TenArgumentsOverflowAsWritten(ws: seq<string>)
    requires |ws| == 10
    requires forall i :: 0 <= i < |ws| ==> IsToken(ws[i], Blanks)
    ensures |Split(Join(ws, ' '), Blanks)| == CapacityAsWritten(10) == 10
  {
    SplitFields(ws, ' ', Blanks);
    NonEmptyKeepsTokens(ws);
    TerminatorOutOfBoundsAsWritten(0);
  }

  /** Capacity once `n` tokens are stored, with the corrected growth test
      `command_count + 1 >= capacity` that keeps a slot for the NULL:
      the terminator index is always inside the array. */
  function CapacityReserved(n: nat): (cap: nat)
    ensures InitialCapacity <= cap && n < cap
  {
    if n == 0 then InitialCapacity
    else
      var c := CapacityReserved(n - 1);
      if n >= c then 2 * c else c
  }

  /** The tokens as string slots, in order. */
  function Strs(toks: seq<string>): (slots: seq<Slot>)
    ensures |slots| == |toks|
    ensures forall k :: 0 <= k < |toks| ==> slots[k] == Str(toks[k])
  {
    if toks == [] then [] else Strs(toks[..|toks| - 1]) + [Str(toks[|toks| - 1])]
  }

  /** The strings a consumer of a NULL-terminated array sees, such as
      `execvp` reading its `argv`: every slot up to the first NULL. */
  function ReadArgv(slots: seq<Slot>): seq<string>
  {
    if slots == [] || slots[0].Null? then [] else [slots[0].text] + ReadArgv(slots[1..])
  }

  /** Reading string slots followed by more slots reads the strings first. */
  lemma {:induction false} ReadArgvStrs(toks: seq<string>, rest: seq<Slot>)
    ensures ReadArgv(Strs(toks) + rest) == toks + ReadArgv(rest)
    decreases |toks|
  {
    if toks != [] {
      var init, last := toks[..|toks| - 1], toks[|toks| - 1];
      assert Strs(toks) + rest == Strs(init) + ([Str(last)] + rest);
      ReadArgvStrs(init, [Str(last)] + rest);
      assert ReadArgv([Str(last)] + rest) == [last] + ReadArgv(rest);
      assert toks == init + [last];
    } else {
      assert Strs(toks) + rest == rest;
    }
  }

  /** The slots of a NULL-terminated array holding `toks`: one more slot
      than there are tokens, and reading up to the first NULL gives back
      exactly the tokens, in order. */
  function ArgvSlots(toks: seq<string>): (slots: seq<Slot>)
    ensures |slots| == |toks| + 1
    ensures ReadArgv(slots) == toks
  {
    ReadArgvStrs(toks, [Null]);
    Strs(toks) + [Null]
  }

  /** `realloc` to twice the size: the first `a.Length` slots are kept. */
  method Grow(a: array<Slot>) returns (b: array<Slot>)
    ensures fresh(b) && b.Length == 2 * a.Length
    ensures b[..a.Length] == a[..]
  {
    b := new Slot[2 * a.Length];
    var k := 0;
    while k < a.Length
      invariant 0 <= k <= a.Length
      invariant b[..k] == a[..k]
    {
      b[k] := a[k];
      k := k + 1;
    }
  }

  /** A delimiter at position `i` contributes no token. */
  lemma SplitSkip(s: string, i: nat, delims: set<char>)
    requires i < |s| && s[i] in delims
    ensures Split(s[i..], delims) == Split(s[i + 1..], delims)
  {
    assert s[i..][1..] == s[i + 1..];
  }

  /** A maximal run `s[i..j]` of non-delimiters is the next token. */
  lemma SplitTake(s: string, i: nat, j: nat, delims: set<char>)
    requires i < j <= |s|
    requires forall k :: i <= k < j ==> s[k] !in delims
    requires j < |s| ==> s[j] in delims
    ensures Split(s[i..], delims) == [s[i..j]] + Split(s[j..], delims)
  {
    RunLengthUnique(s[i..], delims, j - i);
    assert s[i..][..j - i] == s[i..j];
    assert s[i..][j - i..] == s[j..];
  }

  /** The end of the run of non-delimiters that starts at `i`: the
      first delimiter after it, or the end of the string. */
  method RunEnd(s: string, i: nat, delims: set<char>) returns (j: nat)
    requires i < |s| && s[i] !in delims
    ensures i < j <= |s|
    ensures forall k :: i <= k < j ==> s[k] !in delims
    ensures j < |s| ==> s[j] in delims
  {
    j := i + 1;
    while j < |s| && s[j] !in delims
      invariant i < j <= |s|
      invariant forall k :: i <= k < j ==> s[k] !in delims
    {
      j := j + 1;
    }
  }

  /** After scanning `s[..i]` the loop holds `toks`, the tokens that
      precede those of the unscanned rest. */
  ghost predicate Consumed(s: string, i: nat, toks: seq<string>, delims: set<char>)
  {
    i <= |s| && toks + Split(s[i..], delims) == Split(s, delims)
  }

  /** Skipping a delimiter keeps the scan consistent. */
  lemma SkipStep(s: string, i: nat, toks: seq<string>, delims: set<char>)
    requires i < |s| && s[i] in delims && Consumed(s, i, toks, delims)
    ensures Consumed(s, i + 1, toks, delims)
  {
    SplitSkip(s, i, delims);
  }

  /** Taking a maximal run as a token keeps the scan consistent. */
  lemma TakeStep(s: string, i: nat, j: nat, toks: seq<string>, delims: set<char>)
    requires i < j <= |s| && Consumed(s, i, toks, delims)
    requires forall k :: i <= k < j ==> s[k] !in delims
    requires j < |s| ==> s[j] in delims
    ensures Consumed(s, j, toks + [s[i..j]], delims)
  {
    SplitTake(s, i, j, delims);
    assert (toks + [s[i..j]]) + Split(s[j..], delims) == toks + ([s[i..j]] + Split(s[j..], delims));
  }

  /** Stores the token at index `count`, first doubling the array when
      the slot after it (kept for the NULL) would not fit. */
  method Push(argv: array<Slot>, count: nat, token: string) returns (b: array<Slot>)
    requires argv.Length == CapacityReserved(count)
    modifies argv
    ensures b == argv || fresh(b)
    ensures b.Length == CapacityReserved(count + 1)
    ensures b[..count + 1] == old(argv[..count]) + [Str(token)]
  {
    b := argv;
    if count + 1 >= argv.Length {
      b := Grow(argv);
    }
    b[count] := Str(token);
    assert b[..count + 1] == b[..count] + [b[count]];
  }

  /** One call of `strtok` from position `i`: skip a delimiter, or take
      the run of non-delimiters that starts there and store it. */
  method Scan(s: string, delims: set<char>, argv: array<Slot>, count: nat, i: nat, ghost toks: seq<string>)
    returns (argv': array<Slot>, count': nat, i': nat, ghost toks': seq<string>)
    requires i < |s| && Consumed(s, i, toks, delims)
    requires count == |toks| && argv.Length == CapacityReserved(count) && argv[..count] == Strs(toks)
    modifies argv
    ensures argv' == argv || fresh(argv')
    ensures i < i' <= |s| && Consumed(s, i', toks', delims)
    ensures count' == |toks'| && argv'.Length == CapacityReserved(count') && argv'[..count'] == Strs(toks')
  {
    if s[i] in delims {
      SkipStep(s, i, toks, delims);
      argv', count', i', toks' := argv, count, i + 1, toks;
    } else {
      var j := RunEnd(s, i, delims);
      var token := s[i..j];
      TakeStep(s, i, j, toks, delims);
      argv' := Push(argv, count, token);
      count', i', toks' := count + 1, j, toks + [token];
    }
  }

  /** The shared `strtok` loop of `makecmd` and `parse` (with the
      corrected growth test). On return `argv[..count]` holds the tokens
      of `s` in order and `argv[count]` is the NULL terminator. */
  method Tokenize(s: string, delims: set<char>) returns (argv: array<Slot>, count: nat)
    ensures count == |Split(s, delims)|
    ensures argv.Length == CapacityReserved(count) && count < argv.Length
    ensures argv[..count] == Strs(Split(s, delims))
    ensures argv[count] == Null
  {
    argv := new Slot[InitialCapacity];
    count := 0;
    ghost var toks: seq<string> := [];
    var i := 0;
    assert s[0..] == s;
    assert Consumed(s, 0, [], delims);
    while i < |s|
      invariant 0 <= i <= |s|
      invariant fresh(argv)
      invariant count == |toks| && argv.Length == CapacityReserved(count)
      invariant argv[..count] == Strs(toks)
      invariant Consumed(s, i, toks, delims)
      decreases |s| - i
    {
      argv, count, i, toks := Scan(s, delims, argv, count, i, toks);
    }
    assert s[|s|..] == [];
    assert toks == Split(s, delims);
    ghost var stored := argv[..count];
    argv[count] := Null;
    assert argv[..count] == stored;
  }

  /** `makecmd`: the argument vector of one stage. */
  method MakeCmd(stage: string) returns (argv: array<Slot>, count: nat)
    ensures count == |Split(stage, Blanks)| && count < argv.Length
    ensures argv[..count + 1] == ArgvSlots(Split(stage, Blanks))
  {
    argv, count := Tokenize(stage, Blanks);
    assert argv[..count + 1] == argv[..count] + [argv[count]];
  }

  /** `parse`: the stages of one input line. */
  method Parse(line: string) returns (stages: array<Slot>, count: nat)
    ensures count == |Split(line, Bar)| && count < stages.Length
    ensures stages[..count + 1] == ArgvSlots(Split(line, Bar))
  {
    stages, count := Tokenize(line, Bar);
    assert stages[..count + 1] == stages[..count] + [stages[count]];
  }
}
