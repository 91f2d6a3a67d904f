/**
 * Rust's `str::lines`, the iterator `highlight_code` walks: the text is cut
 * after every `\n`; the `\n` is removed, and then a `\r` directly before it;
 * a final line without `\n` is kept as it is; a trailing `\n` does not start
 * an extra empty line.
 */
module TextLines {

  /** Position of the first `\n` in `s`, or `|s|` when there is none. */
  function NewlineIndex(s: string): (k: nat)
    ensures k <= |s|
    ensures k < |s| ==> s[k] == '\n'
    ensures forall i :: 0 <= i < k ==> s[i] != '\n'
  {
    if s == [] || s[0] == '\n' then 0 else 1 + NewlineIndex(s[1..])
  }

  /** A line cut at `\n` loses one `\r` right before the cut. */
  function StripCarriageReturn(line: string): string {
    if |line| > 0 && line[|line| - 1] == '\r' then line[..|line| - 1] else line
  }

  /** `s.lines()` as a sequence. */
  function Lines(s: string): (ls: seq<string>)
    ensures forall i :: 0 <= i < |ls| ==> '\n' !in ls[i]
    ensures ls == [] <==> s == []
    decreases |s|
  {
    if s == [] then []
    else
      var k := NewlineIndex(s);
      if k == |s| then [s]
      else [StripCarriageReturn(s[..k])] + Lines(s[k + 1..])
  }

  /** Each line followed by `\n`, all concatenated. */
  function JoinTerminated(ls: seq<string>): string {
    if ls == [] then [] else ls[0] + "\n" + JoinTerminated(ls[1..])
  }

  /** Terminating two runs of lines is terminating the lines of both, in order. */
  lemma {:induction false} JoinTerminatedAppend(a: seq<string>, b: seq<string>)
    ensures JoinTerminated(a + b) == JoinTerminated(a) + JoinTerminated(b)
    decreases |a|
  {
    if a == [] {
      assert a + b == b;
    } else {
      assert (a + b)[0] == a[0] && (a + b)[1..] == a[1..] + b;
      JoinTerminatedAppend(a[1..], b);
    }
  }

  /**
   * One line per `\n`, plus one for a final line that does not end in `\n`.
   */
  lemma {:induction false} LineCount(s: string)
    ensures |Lines(s)| == multiset(s)['\n'] + (if s != [] && s[|s| - 1] != '\n' then 1 else 0)
    decreases |s|
  {
    if s != [] {
      var k := NewlineIndex(s);
      if k == |s| {
        assert '\n' !in s;
      } else {
        var head, rest := s[..k], s[k + 1..];
        LineCount(rest);
        assert |Lines(s)| == 1 + |Lines(rest)| by {
          LinesAtCut(s, k);
        }
        assert multiset(s)['\n'] == 1 + multiset(rest)['\n'] by {
          CutAtNewline(s, k);
          assert multiset(s) == multiset(head) + multiset{'\n'} + multiset(rest);
        }
        assert (if s[|s| - 1] != '\n' then 1 else 0) == (if rest != [] && rest[|rest| - 1] != '\n' then 1 else 0) by {
          CutAtNewline(s, k);
        }
      }
    }
  }

  /**
   * `s` with every `\r` that directly precedes a `\n` removed, and nothing
   * else changed.
   */
  function DropCrBeforeLf(s: string): string {
    if s == [] then []
    else if |s| >= 2 && s[0] == '\r' && s[1] == '\n' then DropCrBeforeLf(s[1..])
    else [s[0]] + DropCrBeforeLf(s[1..])
  }

  /** Text without carriage returns loses nothing. */
  lemma {:induction false} DropCrBeforeLfWithoutCr(s: string)
    requires '\r' !in s
    ensures DropCrBeforeLf(s) == s
    decreases |s|
  {
    if s != [] {
      assert '\r' !in s[1..] by {
        forall i | 0 <= i < |s[1..]| ensures s[1..][i] != '\r' {
          assert s[1..][i] == s[i + 1];
        }
      }
      DropCrBeforeLfWithoutCr(s[1..]);
      assert s == [s[0]] + s[1..];
    }
  }

  /** Text without a newline has no `\r` to drop. */
  lemma {:induction false} DropCrBeforeLfNoNewline(s: string)
    requires '\n' !in s
    ensures DropCrBeforeLf(s) == s
    decreases |s|
  {
    if s != [] {
      assert '\n' !in s[1..] by {
        forall i | 0 <= i < |s[1..]| ensures s[1..][i] != '\n' {
          assert s[1..][i] == s[i + 1];
        }
      }
      assert |s| >= 2 ==> s[1] != '\n' by {
        if |s| >= 2 {
          assert s[1] in s;
        }
      }
      DropCrBeforeLfNoNewline(s[1..]);
      assert s == [s[0]] + s[1..];
    }
  }

  /**
   * Dropping the `\r`s of a line cut at its `\n` strips the line and leaves
   * the rest of the text to be processed on its own.
   */
  lemma {:induction false} DropCrBeforeLfAtCut(head: string, rest: string)
    requires '\n' !in head
    ensures DropCrBeforeLf(head + "\n" + rest) == StripCarriageReturn(head) + "\n" + DropCrBeforeLf(rest)
    decreases |head|
  {
    var t := head + "\n" + rest;
    if head == [] {
      assert t == "\n" + rest && t[1..] == rest;
    } else if head == "\r" {
      assert t[1..] == "\n" + rest && t[1..][1..] == rest;
    } else {
      var tail := head[1..];
      assert '\n' !in tail by {
        forall i | 0 <= i < |tail| ensures tail[i] != '\n' {
          assert tail[i] == head[i + 1];
        }
      }
      assert t[1..] == tail + "\n" + rest;
      assert t[0] == head[0];
      assert !(t[0] == '\r' && t[1] == '\n') by {
        if head[0] == '\r' {
          assert |tail| > 0 && t[1] == tail[0] && tail[0] in tail;
        }
      }
      DropCrBeforeLfAtCut(tail, rest);
      StripCarriageReturnCons(head);
    }
  }

  /** Stripping a line longer than a lone `\r` keeps its first character in front. */
  lemma StripCarriageReturnCons(line: string)
    requires line != [] && line != "\r"
    ensures StripCarriageReturn(line) == [line[0]] + StripCarriageReturn(line[1..])
  {
    var tail := line[1..];
    if tail == [] {
      assert line == [line[0]];
    } else {
      assert line[|line| - 1] == tail[|tail| - 1];
      if line[|line| - 1] == '\r' {
        assert line[..|line| - 1] == [line[0]] + tail[..|tail| - 1];
      } else {
        assert line == [line[0]] + tail;
      }
    }
  }

  /** The `\n` that rebuilding adds: one when the text ends in an unterminated line. */
  function MissingNewline(s: string): string {
    if s == [] || s[|s| - 1] == '\n' then "" else "\n"
  }

  /**
   * Putting a `\n` after every line rebuilds the text, without the `\r` of
   * each CRLF and with a `\n` added when its last line was unterminated.
   */
  lemma {:induction false} LinesRejoin(s: string)
    ensures JoinTerminated(Lines(s)) == DropCrBeforeLf(s) + MissingNewline(s)
    decreases |s|
  {
    if s != [] {
      var k := NewlineIndex(s);
      if k == |s| {
        assert Lines(s) == [s];
        assert [s][1..] == [];
        DropCrBeforeLfNoNewline(s);
      } else {
        LinesRejoin(s[k + 1..]);
        RejoinCut(s, k);
      }
    }
  }

  /** One step of `LinesRejoin`: the rebuilt first line goes in front of the rebuilt rest. */
  lemma RejoinCut(s: string, k: nat)
    requires k == NewlineIndex(s) < |s|
    requires JoinTerminated(Lines(s[k + 1..])) == DropCrBeforeLf(s[k + 1..]) + MissingNewline(s[k + 1..])
    ensures JoinTerminated(Lines(s)) == DropCrBeforeLf(s) + MissingNewline(s)
  {
    var head, rest := s[..k], s[k + 1..];
    var first := StripCarriageReturn(head);
    assert JoinTerminated(Lines(s)) == first + "\n" + JoinTerminated(Lines(rest)) by {
      RejoinStep(s, k);
    }
    assert DropCrBeforeLf(s) == first + "\n" + DropCrBeforeLf(rest) by {
      CutAtNewline(s, k);
      DropCrBeforeLfAtCut(head, rest);
    }
    assert MissingNewline(s) == MissingNewline(rest) by {
      CutAtNewline(s, k);
    }
    RegroupLine(first, JoinTerminated(Lines(rest)), DropCrBeforeLf(rest), MissingNewline(rest),
                JoinTerminated(Lines(s)), DropCrBeforeLf(s), MissingNewline(s));
  }

  /**
   * The shape of one rebuilding step: a line and its `\n` in front of the
   * rebuilt rest equal the cleaned text in front of the same added `\n`.
   */
  lemma RegroupLine(first: string, joinedRest: string, cleanRest: string, added: string,
                    joined: string, clean: string, addedAll: string)
    requires joined == first + "\n" + joinedRest && joinedRest == cleanRest + added
    requires clean == first + "\n" + cleanRest && addedAll == added
    ensures joined == clean + addedAll
  {
    assert first + "\n" + (cleanRest + added) == first + "\n" + cleanRest + added;
  }

  /** Text without carriage returns is rebuilt exactly, with a `\n` added after an unterminated last line. */
  lemma LinesRejoinWithoutCr(s: string)
    requires '\r' !in s
    ensures JoinTerminated(Lines(s)) == if s == [] || s[|s| - 1] == '\n' then s else s + "\n"
  {
    LinesRejoin(s);
    DropCrBeforeLfWithoutCr(s);
  }

  /** Cutting `s` at its first `\n` gives its first line in front of the rest's lines. */
  lemma RejoinStep(s: string, k: nat)
    requires k == NewlineIndex(s) < |s|
    ensures JoinTerminated(Lines(s)) == StripCarriageReturn(s[..k]) + "\n" + JoinTerminated(Lines(s[k + 1..]))
  {
    LinesAtCut(s, k);
    JoinTerminatedCons(StripCarriageReturn(s[..k]), Lines(s[k + 1..]));
  }

  /** The lines of `s` are its first line, then the lines after its first `\n`. */
  lemma LinesAtCut(s: string, k: nat)
    requires k == NewlineIndex(s) < |s|
    ensures Lines(s) == [StripCarriageReturn(s[..k])] + Lines(s[k + 1..])
  {
  }

  /** Cutting at the first `\n` leaves a newline-free head, and the rest ends as `s` does. */
  lemma CutAtNewline(s: string, k: nat)
    requires k == NewlineIndex(s) < |s|
    ensures '\n' !in s[..k]
    ensures s == s[..k] + "\n" + s[k + 1..]
    ensures s[k + 1..] != [] ==> s[k + 1..][|s[k + 1..]| - 1] == s[|s| - 1]
  {
  }

  /** Terminating a line in front of others puts it and its `\n` in front. */
  lemma JoinTerminatedCons(line: string, ls: seq<string>)
    ensures JoinTerminated([line] + ls) == line + "\n" + JoinTerminated(ls)
  {
    assert ([line] + ls)[0] == line && ([line] + ls)[1..] == ls;
  }

  /** A character absent from `s` is absent from both sides of a cut at `k`. */
  lemma NoCharInSlices(s: string, ch: char, k: nat)
    requires ch !in s && k < |s|
    ensures ch !in s[..k] && ch !in s[k + 1..]
  {
    assert forall i :: 0 <= i < k ==> s[..k][i] == s[i];
    var rest := s[k + 1..];
    assert forall i :: 0 <= i < |rest| ==> rest[i] == s[k + 1 + i];
  }

  /**
   * A final `\n` after an unterminated last line adds no empty line: the
   * text has the same lines with and without it.
   */
  lemma {:induction false} NoLineForTrailingNewline(s: string)
    requires s != [] && s[|s| - 1] != '\n' && s[|s| - 1] != '\r'
    ensures Lines(s + "\n") == Lines(s)
    decreases |s|
  {
    var t := s + "\n";
    var k := NewlineIndex(s);
    assert forall i :: 0 <= i < |s| ==> t[i] == s[i];
    if k == |s| {
      assert NewlineIndex(t) == |s| by {
        NewlineIndexPrefix(s, t);
        assert t[|s|] == '\n';
      }
      assert t[..|s|] == s && t[|s| + 1..] == [];
    } else {
      assert NewlineIndex(t) == k by {
        NewlineIndexPrefix(s, t);
      }
      assert t[..k] == s[..k];
      var rest := s[k + 1..];
      assert rest != [] && rest[|rest| - 1] == s[|s| - 1];
      assert t[k + 1..] == rest + "\n" by {
        assert |t[k + 1..]| == |rest| + 1;
        forall i | 0 <= i < |rest| + 1 ensures t[k + 1..][i] == (rest + "\n")[i] {
          if i < |rest| {
            assert t[k + 1 + i] == s[k + 1 + i];
          }
        }
      }
      NoLineForTrailingNewline(rest);
    }
  }

  /** Appending text after `s` does not move a `\n` found in `s`, nor hide `s`'s lack of one. */
  lemma {:induction false} NewlineIndexPrefix(s: string, t: string)
    requires |s| <= |t| && forall i :: 0 <= i < |s| ==> t[i] == s[i]
    ensures NewlineIndex(s) < |s| ==> NewlineIndex(t) == NewlineIndex(s)
    ensures NewlineIndex(s) == |s| ==> NewlineIndex(t) >= |s|
    decreases |s|
  {
    if s != [] && s[0] != '\n' {
      NewlineIndexPrefix(s[1..], t[1..]);
    }
  }

  /** `str::lines` on empty text, a lone `\n` and an empty middle line. */
  lemma LinesExamples()
    ensures Lines("") == []
    ensures Lines("\n") == [""]
    ensures Lines("a\n\nb") == ["a", "", "b"]
  {
    assert NewlineIndex("\n") == 0;
    assert "\n"[1..] == "";
    assert NewlineIndex("b") == 1;
    assert NewlineIndex("\nb") == 0 && "\nb"[1..] == "b";
    assert NewlineIndex("a\n\nb") == 1 && "a\n\nb"[2..] == "\nb" && "a\n\nb"[..1] == "a";
  }

  /** `str::lines` drops the `\r` of a CRLF, but keeps a final `\r` that no `\n` follows. */
  lemma LinesCarriageReturnExample()
    ensures Lines("x\r\ny\r") == ["x", "y\r"]
  {
    assert NewlineIndex("") == 0 && NewlineIndex("\r") == 1 && NewlineIndex("y\r") == 2;
    assert NewlineIndex("x\r\ny\r") == 2 && "x\r\ny\r"[3..] == "y\r" && "x\r\ny\r"[..2] == "x\r";
    assert StripCarriageReturn("x\r") == "x";
    assert Lines("y\r") == ["y\r"];
  }
}
