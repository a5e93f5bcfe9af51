/** How `executeCommand` prepares one stage's text before launching it:
    a copy of the text is cut at the first '&' (which marks the stage as
    a background one), then trailing spaces and tabs are removed. */
module StageText {

  /** The text up to, not including, the first '&' (all of it if there
      is none), as `strchr` and a NUL store leave it. */
  function BeforeAmpersand(s: string): (cut: string)
    ensures cut <= s
    ensures '&' !in cut
    ensures |cut| < |s| ==> s[|cut|] == '&'
  {
    if s == [] || s[0] == '&' then [] else [s[0]] + BeforeAmpersand(s[1..])
  }

  /** The characters the trimming loop removes: space and tab only. */
  predicate IsBlank(c: char)
  {
    c == ' ' || c == '\t'
  }

  /** `s` without its trailing spaces and tabs. */
  function TrimTrailing(s: string): (t: string)
    ensures t <= s
    ensures t == [] || !IsBlank(t[|t| - 1])
    ensures forall k :: |t| <= k < |s| ==> IsBlank(s[k])
  {
    if s != [] && IsBlank(s[|s| - 1]) then TrimTrailing(s[..|s| - 1]) else s
  }

  /** The prefix that stops at the first '&' is the cut. */
  lemma {:induction false} BeforeAmpersandAt(s: string, pos: nat)
    requires pos <= |s|
    requires forall k :: 0 <= k < pos ==> s[k] != '&'
    requires pos < |s| ==> s[pos] == '&'
    ensures BeforeAmpersand(s) == s[..pos]
  {
    if pos > 0 {
      BeforeAmpersandAt(s[1..], pos - 1);
      assert s[..pos] == [s[0]] + s[1..][..pos - 1];
    }
  }

  /** Everything from the first '&' on is discarded. */
  lemma AmpersandDiscardsRest(a: string, b: string)
    requires '&' !in a
    ensures BeforeAmpersand(a + ['&'] + b) == a
  {
    BeforeAmpersandAt(a + ['&'] + b, |a|);
    assert (a + ['&'] + b)[..|a|] == a;
  }

  /** The trimmed text is the only prefix that ends in a non-blank (or is
      empty) and leaves only blanks behind. */
  lemma {:induction false} TrimUnique(s: string, t: string)
    requires t <= s
    requires t == [] || !IsBlank(t[|t| - 1])
    requires forall k :: |t| <= k < |s| ==> IsBlank(s[k])
    ensures TrimTrailing(s) == t
    decreases |s|
  {
    if |s| > |t| {
      assert s[..|s| - 1][..|t|] == t;
      TrimUnique(s[..|s| - 1], t);
    } else {
      assert s == t;
    }
  }

  /** Trimming twice is trimming once. */
  lemma TrimIdempotent(s: string)
    ensures TrimTrailing(TrimTrailing(s)) == TrimTrailing(s)
  {
    var t := TrimTrailing(s);
    TrimUnique(t, t);
  }

  /** A newline is not a blank here: a text ending in '\n' is kept whole. */
  lemma TrimKeepsNewline(s: string)
    ensures TrimTrailing(s + ['\n']) == s + ['\n']
  {
    TrimUnique(s + ['\n'], s + ['\n']);
  }

  /** `strchr(s, '&')`: the index of the first '&', or |s| if none. */
  method FindAmpersand(s: string) returns (pos: nat)
    ensures pos <= |s|
    ensures pos < |s| <==> '&' in s
    ensures BeforeAmpersand(s) == s[..pos]
  {
    pos := 0;
    while pos < |s| && s[pos] != '&'
      invariant 0 <= pos <= |s|
      invariant forall k :: 0 <= k < pos ==> s[k] != '&'
    {
      pos := pos + 1;
    }
    BeforeAmpersandAt(s, pos);
  }

  /** The copy of the stage text that `executeCommand` makes, cuts at the
      first '&' and trims in place. `background` is the `and_flag`. */
  method PrepareStage(command: string) returns (text: string, background: bool)
    ensures background <==> '&' in command
    ensures text == TrimTrailing(BeforeAmpersand(command))
  {
    // strdup: the text and its NUL terminator
    var buf := new char[|command| + 1];
    forall k | 0 <= k < |command| {
      buf[k] := command[k];
    }
    buf[|command|] := '\0';
    var pos := FindAmpersand(command);
    background := pos < |command|;
    if background {
      buf[pos] := '\0';
    }
    // strlen, then the trimming loop
    var len := pos;
    while len > 0 && (buf[len - 1] == ' ' || buf[len - 1] == '\t')
      invariant 0 <= len <= pos <= |command| && buf.Length == |command| + 1
      invariant forall k :: 0 <= k < len ==> buf[k] == command[k]
      invariant forall k :: len <= k < pos ==> IsBlank(command[k])
    {
      len := len - 1;
      buf[len] := '\0';
    }
    text := buf[..len];
    assert text == command[..pos][..len];
    TrimUnique(command[..pos], text);
  }

  /** A background stage: "sleep 5 &" followed by the newline of the
      input line runs as "sleep 5". */
  lemma BackgroundStageText()
    ensures TrimTrailing(BeforeAmpersand("sleep 5 &\n")) == "sleep 5"
  {
    AmpersandDiscardsRest("sleep 5 ", "\n");
    assert "sleep 5 &\n" == "sleep 5 " + ['&'] + "\n";
    TrimUnique("sleep 5 ", "sleep 5");
  }
}
