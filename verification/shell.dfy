/** The command-line handling of the small shell: the `exit` check, the
    validation of ordinary lines, the split of a `$` line into left and right
    command lists, and the `&` background rule. Process creation and
    execution are not modelled.

    Positions returned by `find`/`rfind` are stored in an `int`, so "not
    found" (`npos`) becomes -1, and they are compared with `strlen(..) - 1`,
    an unsigned `size_t` expression; both conversions are written out. */
module Shell {
  import opened Wrappers
  import opened StdString

  /** The shell quits exactly on the line `exit`. */
  predicate IsExit(line: string)
  {
    line == "exit"
  }

  /** `p == 0 || p == strlen(cmd) - 1` with `p` converted to `size_t`. */
  predicate AtEdge(cmd: string, p: int)
    requires |cmd| < SizeModulus && -1 <= p < |cmd|
  {
    p == 0 || ToSize(p) == ToSize(|cmd| - 1)
  }

  /** The validation of an ordinary line, as written: first the `find`
      positions of `<`, `>` and `|`, then their `rfind` positions. */
  predicate RejectedAsWritten(cmd: string)
    requires |cmd| < SizeModulus
  {
    || AtEdge(cmd, AsInt(Find(cmd, '<'))) || AtEdge(cmd, AsInt(Find(cmd, '>'))) || AtEdge(cmd, AsInt(Find(cmd, '|')))
    || AtEdge(cmd, AsInt(RFind(cmd, '<'))) || AtEdge(cmd, AsInt(RFind(cmd, '>'))) || AtEdge(cmd, AsInt(RFind(cmd, '|')))
  }

  predicate IsRedirect(c: char)
  {
    c == '<' || c == '>' || c == '|'
  }

  lemma EdgeOfChar(cmd: string, c: char)
    requires 0 < |cmd| < SizeModulus
    ensures AtEdge(cmd, AsInt(Find(cmd, c))) || AtEdge(cmd, AsInt(RFind(cmd, c)))
        <==> cmd[0] == c || cmd[|cmd| - 1] == c
  {
    var f := Find(cmd, c);
    var l := RFind(cmd, c);
    if f.Some? {
      assert l.Some?;
    }
  }

  /** An ordinary line is rejected exactly when it is empty or begins or ends
      with `<`, `>` or `|`; the empty line is caught because -1 converted to
      `size_t` equals `strlen("") - 1`. */
  lemma RejectedIff(cmd: string)
    requires |cmd| < SizeModulus
    ensures RejectedAsWritten(cmd)
        <==> |cmd| == 0 || IsRedirect(cmd[0]) || IsRedirect(cmd[|cmd| - 1])
  {
    if |cmd| == 0 {
      assert Find(cmd, '<').None?;
      assert ToSize(-1) == ToSize(|cmd| - 1);
    } else {
      EdgeOfChar(cmd, '<');
      EdgeOfChar(cmd, '>');
      EdgeOfChar(cmd, '|');
    }
  }

  predicate HasNonSpace(s: string)
  {
    exists i :: 0 <= i < |s| && s[i] != ' '
  }

  predicate AllSpaces(s: string)
  {
    forall i | 0 <= i < |s| :: s[i] == ' '
  }

  /** The condition of the trailing-space loop, as written:
      `rfind(" ") == strlen(side) - 1` in `size_t`. */
  predicate TrailingLoopContinues(s: string)
    requires |s| < SizeModulus
  {
    ToSize(AsInt(RFind(s, ' '))) == ToSize(|s| - 1)
  }

  /** The loop continues exactly while the side is empty or ends in a space;
      on the empty side it never stops. */
  lemma TrailingLoopCondition(s: string)
    requires |s| < SizeModulus
    ensures TrailingLoopContinues(s) <==> |s| == 0 || s[|s| - 1] == ' '
  {
    var r := RFind(s, ' ');
  }

  /** A side made only of spaces shrinks to the empty string, where the
      trailing-space loop spins forever. */
  lemma {:induction false} AllSpacesSpin(s: string)
    requires AllSpaces(s) && |s| < SizeModulus
    ensures TrailingLoopContinues(s)
    ensures |s| > 0 ==> AllSpaces(s[..|s| - 1])
  {
    if |s| > 0 {
      assert RFind(s, ' ') == Some(|s| - 1);
    }
  }

  lemma InitKeepsNonSpace(s: string)
    requires HasNonSpace(s) && |s| > 0 && s[|s| - 1] == ' '
    ensures HasNonSpace(s[..|s| - 1])
  {
    var i :| 0 <= i < |s| && s[i] != ' ';
    assert s[..|s| - 1][i] != ' ';
  }

  lemma TailKeepsNonSpace(s: string)
    requires |s| > 0 && s[0] == ' '
    ensures HasNonSpace(s) ==> HasNonSpace(s[1..])
  {
    if HasNonSpace(s) {
      var i :| 0 <= i < |s| && s[i] != ' ';
      assert s[1..][i - 1] != ' ';
    }
  }

  /** The trailing-space loop on a side with a non-space character. */
  function TrimTrailing(s: string): (r: string)
    requires HasNonSpace(s)
    ensures 0 < |r| <= |s| && r == s[..|r|]
    ensures r[|r| - 1] != ' ' && AllSpaces(s[|r|..])
  {
    if s[|s| - 1] == ' ' then
      InitKeepsNonSpace(s);
      var r := TrimTrailing(s[..|s| - 1]);
      assert s[|r|..] == s[..|s| - 1][|r|..] + [' '];
      r
    else s
  }

  /** The condition of the leading-space loop, `find(" ") == 0`, holds
      exactly when the string starts with a space. */
  lemma LeadingLoopCondition(s: string)
    ensures AsInt(Find(s, ' ')) == 0 <==> |s| > 0 && s[0] == ' '
  {
    if |s| > 0 && s[0] != ' ' {
      assert Find(s, ' ') != Some(0);
    }
  }

  /** The leading-space loop: `while (find(" ") == 0)` drops the first
      character. It stops on the empty string, where `find` gives -1. */
  function TrimLeading(s: string): (r: string)
    ensures |r| <= |s| && r == s[|s| - |r|..]
    ensures |r| == 0 || r[0] != ' '
    ensures AllSpaces(s[..|s| - |r|])
    ensures HasNonSpace(s) ==> |r| > 0
  {
    LeadingLoopCondition(s);
    if AsInt(Find(s, ' ')) == 0 then
      var r := TrimLeading(s[1..]);
      LeadingStep(s, r);
      r
    else s
  }

  /** Dropping one leading space keeps the leading-loop postconditions. */
  lemma LeadingStep(s: string, r: string)
    requires |s| > 0 && s[0] == ' ' && |r| <= |s| - 1
    requires r == s[1..][|s| - 1 - |r|..] && AllSpaces(s[1..][..|s| - 1 - |r|])
    requires HasNonSpace(s[1..]) ==> |r| > 0
    ensures r == s[|s| - |r|..] && AllSpaces(s[..|s| - |r|])
    ensures HasNonSpace(s) ==> |r| > 0
  {
    TailKeepsNonSpace(s);
    assert s[..|s| - |r|] == [' '] + s[1..][..|s| - 1 - |r|];
  }

  /** Both trims: the side without its surrounding spaces. */
  function Trim(s: string): (r: string)
    requires HasNonSpace(s)
    ensures exists a, b :: 0 <= a < b <= |s| && r == s[a..b] && AllSpaces(s[..a]) && AllSpaces(s[b..])
    ensures |r| > 0 && r[0] != ' ' && r[|r| - 1] != ' '
  {
    var t := TrimTrailing(s);
    var r := TrimLeading(t);
    TrimParts(s, t, r);
    r
  }

  lemma TrimParts(s: string, t: string, r: string)
    requires 0 < |t| <= |s| && t == s[..|t|] && t[|t| - 1] != ' ' && AllSpaces(s[|t|..])
    requires |r| <= |t| && r == t[|t| - |r|..] && (|r| == 0 || r[0] != ' ')
    requires AllSpaces(t[..|t| - |r|]) && (HasNonSpace(t) ==> |r| > 0)
    ensures 0 <= |t| - |r| < |t| <= |s|
    ensures r == s[|t| - |r|..|t|] && AllSpaces(s[..|t| - |r|]) && AllSpaces(s[|t|..])
    ensures |r| > 0 && r[0] != ' ' && r[|r| - 1] != ' '
  {
    var a := |t| - |r|;
    assert |r| > 0 by {
      assert t[|t| - 1] != ' ';
    }
    assert r == s[a..|t|] by {
      assert t == s[..|t|];
    }
    assert r[|r| - 1] != ' ' by {
      assert r[|r| - 1] == t[|t| - 1];
    }
    assert AllSpaces(s[..a]) by {
      assert s[..a] == t[..a];
    }
  }

  /** A trimmed side becomes one command, or two: the text before its first
      space and everything after that space. */
  function SplitCommands(side: string): (cmds: seq<string>)
    requires |side| < SizeModulus
    ensures ' ' !in side ==> cmds == [side]
    ensures ' ' in side ==> |cmds| == 2 && ' ' !in cmds[0] && cmds[0] + " " + cmds[1] == side
  {
    var space := AsInt(Find(side, ' '));
    if ToSize(space) == ToSize(-1) then [side]
    else
      var first := Substr(side, 0, space);
      var second := Substr(side, space + 1, |side| - space);
      assert side == first + " " + second;
      [first, second]
  }

  /** The side a command list came from, with single spaces between commands. */
  function Unsplit(cmds: seq<string>): string
    requires 1 <= |cmds| <= 2
  {
    if |cmds| == 1 then cmds[0] else cmds[0] + " " + cmds[1]
  }

  lemma SplitRoundTrip(side: string)
    requires |side| < SizeModulus
    ensures 1 <= |SplitCommands(side)| <= 2 && Unsplit(SplitCommands(side)) == side
  {
  }

  /** `core` is `s` with some spaces removed from both ends. */
  ghost predicate Surrounds(s: string, core: string)
  {
    exists a, b :: 0 <= a <= b <= |s| && s[a..b] == core && AllSpaces(s[..a]) && AllSpaces(s[b..])
  }

  /** How `executeNormalCommand` launches a line. */
  datatype Launch = Launch(command: string, background: bool)

  /** A command runs in the background iff it contains `&`; then the last two
      characters are cut off (`substr(0, strlen - 2)`, where a one-character
      command wraps around in `size_t` and is kept whole). */
  function NormalCommand(cmd: string): (l: Launch)
    requires |cmd| < SizeModulus
    ensures l.background <==> '&' in cmd
    ensures !l.background ==> l.command == cmd
    ensures l.background && |cmd| >= 2 ==> l.command + cmd[|cmd| - 2..] == cmd
    ensures l.background && |cmd| < 2 ==> l.command == cmd == "&"
  {
    var background := AsInt(Find(cmd, '&'));
    if ToSize(background) == ToSize(-1) then Launch(cmd, false)
    else Launch(Substr(cmd, 0, ToSize(|cmd| - 2)), true)
  }

  /** What the shell does with one input line. */
  datatype Parsed =
    | Quit
    | Invalid
    | Normal(launch: Launch)
    | DollarPipe(inputs: seq<string>, outputs: seq<string>)
    | Spins  // a trimming loop never ends

  /** The body of the shell's read loop, up to the point of execution. */
  function ParseLine(line: string): (p: Parsed)
    requires |line| < SizeModulus
    ensures p.Quit? <==> line == "exit"
    ensures line != "exit" && '$' !in line ==> p == ParseNormal(line)
    ensures line != "exit" && '$' in line ==> p == ParsePipe(line, Find(line, '$').value)
  {
    if IsExit(line) then Quit
    else
      var dollar := AsInt(Find(line, '$'));
      if ToSize(dollar) == ToSize(-1) then ParseNormal(line)
      else ParsePipe(line, dollar)
  }

  /** A line without `$`: rejected when it starts or ends with a
      redirection character (or is empty), otherwise run. */
  function ParseNormal(line: string): (p: Parsed)
    requires |line| < SizeModulus && '$' !in line && line != "exit"
    ensures p.Invalid? || p.Normal?
    ensures p.Invalid? <==> |line| == 0 || IsRedirect(line[0]) || IsRedirect(line[|line| - 1])
    ensures p.Normal? ==> p.launch == NormalCommand(line)
  {
    RejectedIff(line);
    if RejectedAsWritten(line) then Invalid else Normal(NormalCommand(line))
  }

  /** A line cut at its first `$` (position `d`): each side is trimmed and
      split into commands; a side with no non-space character makes the
      trimming loop spin. */
  function ParsePipe(line: string, d: nat): (p: Parsed)
    requires |line| < SizeModulus && d < |line| && line[d] == '$' && '$' !in line[..d]
    ensures p.Spins? || p.DollarPipe?
    ensures p.Spins? <==> !HasNonSpace(line[..d]) || !HasNonSpace(line[d + 1..])
    ensures p.DollarPipe? ==>
      && p.inputs == SplitCommands(Trim(line[..d]))
      && p.outputs == SplitCommands(Trim(line[d + 1..]))
  {
    var left := Substr(line, 0, d);
    var right := Substr(line, d + 1, |line| - d);
    if !HasNonSpace(left) || !HasNonSpace(right) then Spins
    else DollarPipe(SplitCommands(Trim(left)), SplitCommands(Trim(right)))
  }

  lemma SideRoundTrip(side: string, cmds: seq<string>)
    requires |side| < SizeModulus && HasNonSpace(side)
    requires cmds == SplitCommands(Trim(side))
    ensures 1 <= |cmds| <= 2
    ensures Surrounds(side, Unsplit(cmds))
  {
    SplitRoundTrip(Trim(side));
  }

  /** A `$` line is cut at its first `$`; rejoining each side's commands with
      one space gives back that side without its surrounding spaces. */
  lemma PipeRoundTrip(line: string, d: nat)
    requires |line| < SizeModulus && d < |line| && line[d] == '$' && '$' !in line[..d]
    requires ParsePipe(line, d).DollarPipe?
    ensures var p := ParsePipe(line, d);
      && 1 <= |p.inputs| <= 2 && 1 <= |p.outputs| <= 2
      && Surrounds(line[..d], Unsplit(p.inputs))
      && Surrounds(line[d + 1..], Unsplit(p.outputs))
  {
    var p := ParsePipe(line, d);
    SideRoundTrip(line[..d], p.inputs);
    SideRoundTrip(line[d + 1..], p.outputs);
  }
}
