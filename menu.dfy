/** The interactive command loop: every input line is trimmed the way Java's
    `String.trim` trims, then mapped to one of five menu actions or to
    "invalid option"; the loop runs until option 5 is chosen. What each action
    prints is not modelled, only which action each line selects. */
module Menu {

  /** `String.trim` removes every character whose code is at most U+0020. */
  predicate IsTrimmable(c: char) {
    c <= ' '
  }

  predicate AllTrimmable(s: string) {
    forall k | 0 <= k < |s| :: IsTrimmable(s[k])
  }

  /** `s` without its leading trimmable characters. */
  function TrimStart(s: string): string {
    if s != [] && IsTrimmable(s[0]) then TrimStart(s[1..]) else s
  }

  /** `s` without its trailing trimmable characters. */
  function TrimEnd(s: string): string {
    if s != [] && IsTrimmable(s[|s| - 1]) then TrimEnd(s[..|s| - 1]) else s
  }

  /** `TrimStart` removes only trimmable characters, and keeps a suffix that
      starts with a kept character. */
  lemma {:induction false} TrimStartIsSuffix(s: string)
    ensures var t := TrimStart(s);
      && |t| <= |s| && t == s[|s| - |t|..] && (t == [] || !IsTrimmable(t[0]))
      && AllTrimmable(s[..|s| - |t|])
  {
    if s != [] && IsTrimmable(s[0]) {
      TrimStartIsSuffix(s[1..]);
      var n := |s[1..]| - |TrimStart(s[1..])|;
      assert s[..n + 1] == [s[0]] + s[1..][..n];
    }
  }

  /** `TrimEnd` removes only trimmable characters, and keeps a prefix that
      ends with a kept character. */
  lemma {:induction false} TrimEndIsPrefix(s: string)
    ensures var t := TrimEnd(s);
      && |t| <= |s| && t == s[..|t|] && (t == [] || !IsTrimmable(t[|t| - 1]))
      && AllTrimmable(s[|t|..])
  {
    if s != [] && IsTrimmable(s[|s| - 1]) {
      var shorter := s[..|s| - 1];
      TrimEndIsPrefix(shorter);
      var m := |TrimEnd(shorter)|;
      assert s[m..] == shorter[m..] + [s[|s| - 1]];
    }
  }

  /** `String.trim`: the result neither starts nor ends with a trimmable
      character (`TrimIsSlice` adds that it is what is left of `s` once
      trimmable characters are cut from both ends). */
  function Trim(s: string): (t: string)
    ensures |t| <= |s|
    ensures t == [] || (!IsTrimmable(t[0]) && !IsTrimmable(t[|t| - 1]))
  {
    TrimStartIsSuffix(s);
    TrimEndIsPrefix(TrimStart(s));
    TrimEnd(TrimStart(s))
  }

  /** `Trim(s)` is a slice `s[i..j]` of the line, and everything cut off on
      either side is trimmable. */
  lemma TrimIsSlice(s: string)
    ensures exists i, j | 0 <= i <= j <= |s| ::
      && Trim(s) == s[i..j] && AllTrimmable(s[..i]) && AllTrimmable(s[j..])
  {
    TrimStartIsSuffix(s);
    var u := TrimStart(s);
    TrimEndIsPrefix(u);
    var i := |s| - |u|;
    var j := i + |TrimEnd(u)|;
    assert u == s[i..];
    assert Trim(s) == s[i..j];
    assert s[j..] == u[|TrimEnd(u)|..];
  }

  /** Only a string made entirely of trimmable characters trims to nothing
      from the front. */
  lemma {:induction false} TrimStartEmptyIff(s: string)
    ensures TrimStart(s) == [] <==> AllTrimmable(s)
  {
    if s != [] && IsTrimmable(s[0]) {
      TrimStartEmptyIff(s[1..]);
      assert AllTrimmable(s[1..]) ==> AllTrimmable(s) by {
        if AllTrimmable(s[1..]) {
          forall k | 0 <= k < |s| ensures IsTrimmable(s[k]) {
            if k > 0 { assert s[k] == s[1..][k - 1]; }
          }
        }
      }
    }
  }

  lemma {:induction false} TrimStartSkipsPadding(pre: string, s: string)
    requires AllTrimmable(pre)
    ensures TrimStart(pre + s) == TrimStart(s)
  {
    if pre != [] {
      var whole := pre + s;
      assert whole[0] == pre[0];
      assert IsTrimmable(whole[0]);
      assert whole[1..] == pre[1..] + s;
      assert TrimStart(whole) == TrimStart(whole[1..]);
      AllTrimmableTail(pre);
      TrimStartSkipsPadding(pre[1..], s);
    } else {
      assert pre + s == s;
    }
  }

  lemma AllTrimmableTail(s: string)
    requires s != [] && AllTrimmable(s)
    ensures AllTrimmable(s[1..]) && AllTrimmable(s[..|s| - 1])
  {
    assert forall k | 0 <= k < |s| - 1 :: s[1..][k] == s[k + 1] && s[..|s| - 1][k] == s[k];
  }

  lemma {:induction false} TrimEndSkipsPadding(s: string, post: string)
    requires AllTrimmable(post)
    ensures TrimEnd(s + post) == TrimEnd(s)
  {
    if post != [] {
      var whole := s + post;
      var shorter := post[..|post| - 1];
      assert whole[|whole| - 1] == post[|post| - 1];
      assert IsTrimmable(whole[|whole| - 1]);
      assert whole[..|whole| - 1] == s + shorter;
      assert TrimEnd(whole) == TrimEnd(whole[..|whole| - 1]);
      AllTrimmableTail(post);
      TrimEndSkipsPadding(s, shorter);
    } else {
      assert s + post == s;
    }
  }

  lemma {:induction false} TrimStartKeepsSuffix(s: string, post: string)
    requires TrimStart(s) != []
    ensures TrimStart(s + post) == TrimStart(s) + post
  {
    if IsTrimmable(s[0]) {
      assert (s + post)[1..] == s[1..] + post;
      TrimStartKeepsSuffix(s[1..], post);
    }
  }

  /** Whitespace around a choice never changes what it trims to. */
  lemma TrimIgnoresPadding(pre: string, s: string, post: string)
    requires AllTrimmable(pre) && AllTrimmable(post)
    ensures Trim(pre + s + post) == Trim(s)
  {
    assert pre + s + post == pre + (s + post);
    TrimStartSkipsPadding(pre, s + post);
    if TrimStart(s) != [] {
      TrimStartKeepsSuffix(s, post);
      TrimEndSkipsPadding(TrimStart(s), post);
    } else {
      TrimStartEmptyIff(s);
      TrimStartSkipsPadding(s, post);
      TrimStartSkipsPadding(post, []);
      assert post + [] == post;
    }
  }

  datatype Action =
    | ShowCpuInfo
    | ShowMemoryInfo
    | ShowDiskInfo
    | RunHealthCheck
    | Exit
    | InvalidOption

  /** The `switch` on the trimmed choice. */
  function Select(choice: string): (a: Action)
    ensures a == Exit <==> choice == "5"
    ensures a == InvalidOption <==> choice !in {"1", "2", "3", "4", "5"}
  {
    if choice == "1" then ShowCpuInfo
    else if choice == "2" then ShowMemoryInfo
    else if choice == "3" then ShowDiskInfo
    else if choice == "4" then RunHealthCheck
    else if choice == "5" then Exit
    else InvalidOption
  }

  /** The action one input line selects. */
  function Dispatch(line: string): Action {
    Select(Trim(line))
  }

  /** How the loop ends: option 5, or the input runs out (where
      `Scanner.nextLine` throws and the program stops). */
  datatype RunOutcome = Exited | InputExhausted

  /** The actions a whole session performs on the given input lines, and how
      it ends. */
  function Session(lines: seq<string>): (seq<Action>, RunOutcome) {
    if lines == [] then ([], InputExhausted)
    else
      var action := Dispatch(lines[0]);
      if action == Exit then ([Exit], Exited)
      else
        var rest := Session(lines[1..]);
        ([action] + rest.0, rest.1)
  }

  /** A session performs, in order, the action each line selects; it stops
      right after the first Exit, and only running out of input ends it
      otherwise. */
  lemma {:induction false} SessionFacts(lines: seq<string>)
    ensures var (actions, outcome) := Session(lines);
      && |actions| <= |lines|
      && (forall i | 0 <= i < |actions| :: actions[i] == Dispatch(lines[i]))
      && (forall i | 0 <= i < |actions| - 1 :: actions[i] != Exit)
      && (outcome == Exited <==> actions != [] && actions[|actions| - 1] == Exit)
      && (outcome == InputExhausted ==> |actions| == |lines|)
  {
    if lines != [] && Dispatch(lines[0]) != Exit {
      SessionFacts(lines[1..]);
    }
  }

  /** `run`: read, trim and dispatch one line per iteration while `running`. */
  method Run(lines: seq<string>) returns (actions: seq<Action>, outcome: RunOutcome)
    ensures (actions, outcome) == Session(lines)
  {
    var running := true;
    var consumed := 0;
    actions := [];
    outcome := InputExhausted;
    assert lines[consumed..] == lines;
    assert actions + Session(lines).0 == Session(lines).0;
    while running
      invariant consumed <= |lines|
      invariant running ==> Session(lines) == (actions + Session(lines[consumed..]).0,
                                               Session(lines[consumed..]).1)
      invariant !running ==> (actions, outcome) == Session(lines)
      decreases |lines| - consumed
    {
      if consumed == |lines| {
        outcome := InputExhausted;
        assert actions + [] == actions;
        return;
      }
      var choice := Trim(lines[consumed]);
      var action := Select(choice);
      ghost var rest := lines[consumed..];
      assert rest[0] == lines[consumed] && rest[1..] == lines[consumed + 1..];
      assert Dispatch(rest[0]) == action;
      ghost var before := actions;
      consumed := consumed + 1;
      actions := actions + [action];
      if action == Exit {
        running := false;
        outcome := Exited;
      } else {
        assert before + ([action] + Session(lines[consumed..]).0)
            == actions + Session(lines[consumed..]).0;
      }
    }
  }

  /** An unrecognised line is reported and the loop goes on; "5", padding
      aside, ends it. */
  lemma ExitScenario()
    ensures Session(["abc", " 5 ", "1"]) == ([InvalidOption, Exit], Exited)
  {
    var lines := ["abc", " 5 ", "1"];
    assert Trim("abc") == "abc";
    assert Dispatch(lines[0]) == InvalidOption;
    assert Trim(" 5 ") == "5" by {
      TrimIgnoresPadding(" ", "5", " ");
      assert " " + "5" + " " == " 5 ";
    }
    assert Dispatch(lines[1]) == Exit;
    assert lines[1..][0] == lines[1];
    assert Session(lines[1..]) == ([Exit], Exited);
    assert [InvalidOption] + [Exit] == [InvalidOption, Exit];
  }

  /** Without option 5 the loop consumes every line. */
  lemma ExhaustedScenario()
    ensures Session(["4", "9"]) == ([RunHealthCheck, InvalidOption], InputExhausted)
  {
    var lines := ["4", "9"];
    assert Trim("4") == "4";
    assert Trim("9") == "9";
    assert Dispatch(lines[0]) == RunHealthCheck;
    assert Dispatch(lines[1]) == InvalidOption;
    assert lines[1..][0] == lines[1];
    assert lines[1..][1..] == [];
    assert Session([]) == ([], InputExhausted);
    assert [InvalidOption] + [] == [InvalidOption];
    assert Session(lines[1..]) == ([InvalidOption], InputExhausted);
    assert [RunHealthCheck] + [InvalidOption] == [RunHealthCheck, InvalidOption];
  }
}
