/** The `.env` file handling of setup.py: `load_env` reads `KEY=VALUE`
    lines into a dictionary, and `gen_sample_env` writes a copy of the file
    with every value blanked out. A file is its sequence of lines, each as
    read, with its line terminator still attached. */
module EnvFile {
  import opened Text

  type Env = map<string, string>

  /** What one line contributes to `load_env`: nothing for a line whose
      first character is `#` (tested before any trimming) or one without
      `=`; otherwise the trimmed text before the first `=` as the key and
      the trimmed rest as the value. */
  function ParseLine(line: string): (r: Option<(string, string)>)
    ensures r.None? <==> StartsWith(line, '#') || '=' !in line
    ensures r.Some? ==> '=' !in r.value.0 && NoEdgeSpace(r.value.0) && NoEdgeSpace(r.value.1)
  {
    if StartsWith(line, '#') then None
    else if line == [] then None
    else
      var t := Strip(line);
      StripKeeps(line, '=');
      match SplitOnce(t, '=')
      case None => None
      case Some((a, b)) =>
        StripKeeps(a, '=');
        Some((Strip(a), Strip(b)))
  }

  /** An assignment line is cut at the first `=` of its trimmed text: the
      key is the trimmed text before it, the value the trimmed text after. */
  lemma ParseLineSplit(line: string) returns (a: string, b: string)
    requires ParseLine(line).Some?
    ensures Strip(line) == a + "=" + b && '=' !in a
    ensures ParseLine(line).value == (Strip(a), Strip(b))
  {
    var t := Strip(line);
    StripKeeps(line, '=');
    a, b := SplitOnce(t, '=').value.0, SplitOnce(t, '=').value.1;
  }

  /** `line` assigns a value to `key`. */
  predicate Assigns(line: string, key: string) {
    ParseLine(line).Some? && ParseLine(line).value.0 == key
  }

  /** One step of the loop in `load_env`: the key the line assigns gets
      the line's value, every other key keeps its value, and nothing else
      is added. */
  function Step(env: Env, line: string): (r: Env)
    ensures forall k :: Assigns(line, k) ==> k in r && r[k] == ParseLine(line).value.1
    ensures forall k :: k in env && !Assigns(line, k) ==> k in r && r[k] == env[k]
    ensures forall k :: k in r ==> k in env || Assigns(line, k)
    ensures |r| <= |env| + 1
  {
    match ParseLine(line)
    case None => env
    case Some((k, v)) => env[k := v]
  }

  /** The dictionary `load_env` returns for the given lines. */
  function ParseEnv(lines: seq<string>): (r: Env)
    ensures |r| <= |lines|
    decreases |lines|
  {
    if lines == [] then map[] else Step(ParseEnv(lines[..|lines| - 1]), lines[|lines| - 1])
  }

  /** `load_env`: the loop over the file's lines, assigning into `env`. */
  method LoadEnv(lines: seq<string>) returns (env: Env)
    ensures env == ParseEnv(lines)
  {
    env := map[];
    var i := 0;
    while i < |lines|
      invariant 0 <= i <= |lines|
      invariant env == ParseEnv(lines[..i])
    {
      var line := lines[i];
      if StartsWith(line, '#') {
      } else if line != [] {
        var t := Strip(line);
        var tokens := SplitOnce(t, '=');
        if tokens.Some? {
          env := env[Strip(tokens.value.0) := Strip(tokens.value.1)];
        }
      }
      assert lines[..i + 1][..i] == lines[..i];
      i := i + 1;
    }
    assert lines[..i] == lines;
  }

  /** A key is in the dictionary exactly when some line assigns it. */
  lemma {:induction false} ParseEnvKeys(lines: seq<string>, key: string)
    ensures key in ParseEnv(lines) <==> exists i :: 0 <= i < |lines| && Assigns(lines[i], key)
    decreases |lines|
  {
    if lines != [] {
      var init, last := lines[..|lines| - 1], lines[|lines| - 1];
      ParseEnvKeys(init, key);
      if key in ParseEnv(lines) {
        if Assigns(last, key) {
          assert Assigns(lines[|lines| - 1], key);
        } else {
          var i :| 0 <= i < |init| && Assigns(init[i], key);
          assert lines[i] == init[i];
        }
      } else {
        forall i | 0 <= i < |lines| ensures !Assigns(lines[i], key) {
          if i < |init| { assert lines[i] == init[i]; }
        }
      }
    }
  }

  /** The last line that assigns a key decides its value. */
  lemma {:induction false} LastAssignmentWins(lines: seq<string>, i: nat, key: string, value: string)
    requires i < |lines| && ParseLine(lines[i]) == Some((key, value))
    requires forall j :: i < j < |lines| ==> !Assigns(lines[j], key)
    ensures key in ParseEnv(lines) && ParseEnv(lines)[key] == value
    decreases |lines|
  {
    if i < |lines| - 1 {
      var init := lines[..|lines| - 1];
      LastAssignmentWins(init, i, key, value);
      assert !Assigns(lines[|lines| - 1], key);
    }
  }

  /** What `gen_sample_env` writes for one line, without its newline: a
      trimmed comment or blank line as it is, otherwise a line whose only
      `=` is its last character, so no value text is ever written. */
  function SampleLine(line: string): (r: string)
    ensures var t := Strip(line);
            (t == [] || StartsWith(t, '#')) ==> r == t
    ensures var t := Strip(line);
            !(t == [] || StartsWith(t, '#')) ==>
              1 <= |r| <= |t| + 1 && r[|r| - 1] == '=' && '=' !in r[..|r| - 1]
  {
    var t := Strip(line);
    if StartsWith(t, '#') || t == [] then t
    else
      match SplitOnce(t, '=')
      case None =>
        assert t == t[..|t|];
        t + "="
      case Some((a, b)) =>
        assert t[..|a|] == a;
        a + "="
  }

  /** For an assignment line, what precedes the final `=` of the sample line
      is the trimmed line's text up to its first `=` (all of it when it has
      none). */
  lemma SampleLineKey(line: string)
    requires var t := Strip(line); !(t == [] || StartsWith(t, '#'))
    ensures var t, r := Strip(line), SampleLine(line);
            r[..|r| - 1] == t[..|r| - 1] && (|r| - 1 == |t| || t[|r| - 1] == '=')
    ensures SampleLine(line)[0] == Strip(line)[0]
  {
  }

  /** The `.env.sample` file `gen_sample_env` writes: each input line's
      sample line, ending in a newline. */
  function SampleFile(lines: seq<string>): (r: seq<string>)
    ensures |r| == |lines|
    decreases |lines|
  {
    if lines == [] then []
    else SampleFile(lines[..|lines| - 1]) + [SampleLine(lines[|lines| - 1]) + "\n"]
  }

  /** Line `i` of the sample file is written for input line `i`. */
  lemma {:induction false} SampleFileAt(lines: seq<string>, i: nat)
    requires i < |lines|
    ensures SampleFile(lines)[i] == SampleLine(lines[i]) + "\n"
    decreases |lines|
  {
    var init := lines[..|lines| - 1];
    assert SampleFile(lines) == SampleFile(init) + [SampleLine(lines[|lines| - 1]) + "\n"];
    if i < |init| {
      SampleFileAt(init, i);
      assert init[i] == lines[i];
    }
  }

  /** `gen_sample_env`: the loop that writes the sample file line by line. */
  method GenSampleEnv(lines: seq<string>) returns (out: seq<string>)
    ensures out == SampleFile(lines)
  {
    out := [];
    for i := 0 to |lines|
      invariant out == SampleFile(lines[..i])
    {
      var line := Strip(lines[i]);
      var written;
      if StartsWith(line, '#') || line == [] {
        written := line + "\n";
      } else {
        var tokens := SplitOnce(line, '=');
        written := (if tokens.Some? then tokens.value.0 else line) + "=" + "\n";
      }
      assert written == SampleLine(lines[i]) + "\n";
      assert lines[..i + 1][..i] == lines[..i];
      out := out + [written];
    }
    assert lines[..|lines|] == lines;
  }

  /** The converse of `ParseLineSplit`: a line that is not a `#` line and
      whose trimmed text is cut by its first `=` into `a` and `b` assigns
      the trimmed `b` to the trimmed `a`. */
  lemma ParseLineOf(line: string, a: string, b: string)
    requires !StartsWith(line, '#') && Strip(line) == a + "=" + b && '=' !in a
    ensures ParseLine(line) == Some((Strip(a), Strip(b)))
  {
    SplitOnceAt(a, '=', b);
  }

  /** Read back, a sample line assigns nothing or assigns the empty value. */
  lemma SampleLineParsesEmpty(line: string)
    ensures ParseLine(SampleLine(line) + "\n").None? || ParseLine(SampleLine(line) + "\n").value.1 == ""
  {
    var t := Strip(line);
    if !(t == [] || StartsWith(t, '#')) {
      SampleAssignment(line);
    }
  }

  /** A sample line for an assignment line reads back as its key with the
      empty value. */
  lemma SampleAssignment(line: string)
    requires var t := Strip(line); !(t == [] || StartsWith(t, '#'))
    ensures var a := SampleLine(line)[..|SampleLine(line)| - 1];
            ParseLine(SampleLine(line) + "\n") == Some((Strip(a), ""))
  {
    var t := Strip(line);
    var s := SampleLine(line);
    var a := s[..|s| - 1];
    var u := s + "\n";
    assert s == a + "=";
    assert s[0] == t[0] by { SampleLineKey(line); }
    assert NoEdgeSpace(s);
    StripNewline(s);
    assert !StartsWith(u, '#') by { assert u[0] == s[0]; }
    assert Strip("") == "" by { StripUnique("", 0, 0); }
    ParseLineOf(u, a, "");
  }

  /** Trimming removes the newline that ends a written line. */
  lemma StripNewline(s: string)
    requires NoEdgeSpace(s)
    ensures Strip(s + "\n") == s
  {
    var u := s + "\n";
    assert u[..|s|] == s && u[|s|..] == "\n";
    StripUnique(u, 0, |s|);
  }

  /** Loading the sample file yields only empty values. */
  lemma SampleValuesEmpty(lines: seq<string>)
    ensures forall k :: k in ParseEnv(SampleFile(lines)) ==> ParseEnv(SampleFile(lines))[k] == ""
  {
    var out := SampleFile(lines);
    forall i | 0 <= i < |out| ensures ParseLine(out[i]).None? || ParseLine(out[i]).value.1 == "" {
      SampleFileAt(lines, i);
      SampleLineParsesEmpty(lines[i]);
    }
    EmptyValuesFold(out);
  }

  lemma {:induction false} EmptyValuesFold(lines: seq<string>)
    requires forall i :: 0 <= i < |lines| ==> ParseLine(lines[i]).None? || ParseLine(lines[i]).value.1 == ""
    ensures forall k :: k in ParseEnv(lines) ==> ParseEnv(lines)[k] == ""
    decreases |lines|
  {
    if lines != [] {
      EmptyValuesFold(lines[..|lines| - 1]);
    }
  }

  /** No line of the file is a comment only once trimmed. */
  predicate NoIndentedComments(lines: seq<string>) {
    forall i :: 0 <= i < |lines| ==> StartsWith(Strip(lines[i]), '#') ==> StartsWith(lines[i], '#')
  }

  /** Every key of the file is a key of its sample, unless the file holds a
      `#` line indented by whitespace, which `load_env` reads as an
      assignment and `gen_sample_env` copies as a comment. */
  lemma SampleKeepsKeys(lines: seq<string>)
    requires NoIndentedComments(lines)
    ensures ParseEnv(lines).Keys <= ParseEnv(SampleFile(lines)).Keys
  {
    var out := SampleFile(lines);
    forall k | k in ParseEnv(lines) ensures k in ParseEnv(out) {
      ParseEnvKeys(lines, k);
      var i :| 0 <= i < |lines| && Assigns(lines[i], k);
      assert !StartsWith(lines[i], '#');
      SampleKeepsKey(lines[i], k);
      SampleFileAt(lines, i);
      assert Assigns(out[i], k);
      ParseEnvKeys(out, k);
    }
  }

  /** An assignment line's sample line assigns the same key. */
  lemma SampleKeepsKey(line: string, key: string)
    requires Assigns(line, key) && !StartsWith(Strip(line), '#')
    ensures Assigns(SampleLine(line) + "\n", key)
  {
    var t := Strip(line);
    var a, b := ParseLineSplit(line);
    assert t != [];
    SampleAssignment(line);
    SplitOnceAt(a, '=', b);
    var s := SampleLine(line);
    assert s == a + "=";
    assert s[..|s| - 1] == a;
  }

  /** A `#` line indented by whitespace is read by `load_env` as an
      assignment to a key that starts with `#`, while `gen_sample_env`
      copies it as a comment, so the sample file assigns nothing for it. */
  lemma IndentedComment(line: string)
    requires !StartsWith(line, '#') && StartsWith(Strip(line), '#') && '=' in line
    ensures ParseLine(line).Some? && StartsWith(ParseLine(line).value.0, '#')
    ensures SampleLine(line) == Strip(line) && ParseLine(SampleLine(line) + "\n").None?
  {
    var a, b := ParseLineSplit(line);
    assert a != [] && a[0] == '#' by {
      assert Strip(line)[0] == '#';
    }
    StripFirst(a);
    var u := SampleLine(line) + "\n";
    assert u[0] == '#';
  }
}
