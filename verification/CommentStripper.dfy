/** Removal of nested block comments and line comments, line by line. */
module CommentStripper {
  import opened Sequences

  predicate Starts(text: string, a: char, b: char) {
    |text| >= 2 && text[0] == a && text[1] == b
  }

  /** What is kept of the rest of a line at a comment depth, and the depth after it. */
  function StripLine(text: string, depth: nat): (string, nat)
    decreases |text|
  {
    if text == "" then ("", depth)
    else if depth > 0 then
      if Starts(text, '/', '*') then StripLine(text[2..], depth + 1)
      else if Starts(text, '*', '/') then StripLine(text[2..], depth - 1)
      else StripLine(text[1..], depth)
    else if Starts(text, '/', '*') then StripLine(text[2..], 1)
    else if Starts(text, '/', '/') then ("", 0)
    else
      var rest := StripLine(text[1..], 0);
      ([text[0]] + rest.0, rest.1)
  }

  function Strip(lines: seq<string>, depth: nat): (r: seq<string>)
    ensures |r| == |lines|
    decreases |lines|
  {
    if lines == [] then []
    else
      var first := StripLine(lines[0], depth);
      [first.0] + Strip(lines[1..], first.1)
  }

  /** `line.startswith(ab, index)` */
  predicate StartsAt(line: string, a: char, b: char, index: nat) {
    index + 1 < |line| && line[index] == a && line[index + 1] == b
  }

  /** The scan of one line. */
  method ScanLine(line: string, start: nat) returns (result: string, depth: nat)
    ensures (result, depth) == StripLine(line, start)
  {
    result, depth := "", start;
    var index := 0;
    assert line[0..] == line;
    while index < |line|
      invariant 0 <= index <= |line|
      invariant StripLine(line, start).0 == result + StripLine(line[index..], depth).0
      invariant StripLine(line, start).1 == StripLine(line[index..], depth).1
    {
      assert StartsAt(line, '/', '*', index) == Starts(line[index..], '/', '*');
      assert StartsAt(line, '*', '/', index) == Starts(line[index..], '*', '/');
      assert StartsAt(line, '/', '/', index) == Starts(line[index..], '/', '/');
      assert line[index..][1..] == line[index + 1..];
      assert index + 2 <= |line| ==> line[index..][2..] == line[index + 2..];
      if depth > 0 {
        if StartsAt(line, '/', '*', index) {
          depth := depth + 1;
          index := index + 2;
        } else if StartsAt(line, '*', '/', index) {
          depth := depth - 1;
          index := index + 2;
        } else {
          index := index + 1;
        }
        continue;
      }
      if StartsAt(line, '/', '*', index) {
        depth := 1;
        index := index + 2;
        continue;
      }
      if StartsAt(line, '/', '/', index) {
        assert result + "" == result;
        return;
      }
      result := result + [line[index]];
      index := index + 1;
    }
    assert line[index..] == "" && result + "" == result;
  }

  method StripBlockComments(lines: seq<string>) returns (output: seq<string>)
    ensures output == Strip(lines, 0)
    ensures |output| == |lines|
    ensures forall i | 0 <= i < |lines| :: Subsequence(output[i], lines[i]) && Clean(output[i])
    ensures Strip(output, 0) == output
  {
    output := [];
    var depth: nat := 0;
    for k := 0 to |lines|
      invariant Strip(lines, 0) == output + Strip(lines[k..], depth)
    {
      var result, after := ScanLine(lines[k], depth);
      assert lines[k..][0] == lines[k] && lines[k..][1..] == lines[k + 1..];
      output := output + [result];
      depth := after;
    }
    assert output + Strip([], depth) == output;
    StripFacts(lines, 0);
    CleanIsKept(output);
  }

  // ----- what is kept

  predicate Subsequence(s: string, t: string) {
    if s == "" then true
    else if t == "" then false
    else if s[0] == t[0] && Subsequence(s[1..], t[1..]) then true
    else Subsequence(s, t[1..])
  }

  /** No comment opens in the line. */
  predicate Clean(line: string) {
    forall i | 0 <= i < |line| - 1 && line[i] == '/' :: line[i + 1] !in {'/', '*'}
  }

  lemma SubsequenceOfTail(s: string, t: string)
    requires t != "" && Subsequence(s, t[1..])
    ensures Subsequence(s, t)
  {
  }

  lemma {:induction false} StripLineSubsequence(text: string, depth: nat)
    ensures Subsequence(StripLine(text, depth).0, text)
    decreases |text|
  {
    if text != "" {
      var kept := StripLine(text, depth).0;
      if Starts(text, '/', '*') || (depth > 0 && Starts(text, '*', '/')) {
        StripLineSubsequence(text[2..],
            if depth == 0 then 1 else if Starts(text, '/', '*') then depth + 1 else depth - 1);
        assert text[1..][1..] == text[2..];
        SubsequenceOfTail(kept, text[1..]);
        SubsequenceOfTail(kept, text);
      } else if depth > 0 {
        StripLineSubsequence(text[1..], depth);
        SubsequenceOfTail(kept, text);
      } else if !Starts(text, '/', '/') {
        StripLineSubsequence(text[1..], 0);
        assert kept[1..] == StripLine(text[1..], 0).0;
      }
    }
  }

  /** Also where the text on both sides of a removed comment is joined, no comment opens:
      a slash is kept only if the next character of the line is kept too and opens none with it. */
  lemma {:induction false} StripLineClean(text: string, depth: nat)
    ensures Clean(StripLine(text, depth).0)
    ensures depth == 0 && text != "" && text[0] != '/' ==>
              StripLine(text, depth).0 != "" && StripLine(text, depth).0[0] == text[0]
    decreases |text|
  {
    if text != "" {
      if Starts(text, '/', '*') || (depth > 0 && Starts(text, '*', '/')) {
        StripLineClean(text[2..], if depth == 0 then 1 else if Starts(text, '/', '*') then depth + 1 else depth - 1);
      } else if depth > 0 {
        StripLineClean(text[1..], depth);
      } else if !Starts(text, '/', '/') {
        StripLineClean(text[1..], 0);
        CleanCons(text[0], StripLine(text[1..], 0).0);
      }
    }
  }

  lemma CleanCons(c: char, rest: string)
    requires Clean(rest) && (c == '/' && rest != "" ==> rest[0] !in {'/', '*'})
    ensures Clean([c] + rest)
  {
    var s := [c] + rest;
    forall i | 0 <= i < |s| - 1 && s[i] == '/' ensures s[i + 1] !in {'/', '*'} {
      if i > 0 { assert rest[i - 1] == '/'; }
    }
  }

  lemma {:induction false} StripFacts(lines: seq<string>, depth: nat)
    ensures forall i | 0 <= i < |lines| ::
        Subsequence(Strip(lines, depth)[i], lines[i]) && Clean(Strip(lines, depth)[i])
    decreases |lines|
  {
    if lines != [] {
      StripLineSubsequence(lines[0], depth);
      StripLineClean(lines[0], depth);
      StripFacts(lines[1..], StripLine(lines[0], depth).1);
    }
  }

  // ----- clean text is left alone, so stripping twice is stripping once

  lemma {:induction false} CleanLineIsKept(line: string)
    requires Clean(line)
    ensures StripLine(line, 0) == (line, 0)
    decreases |line|
  {
    if line != "" {
      forall i | 0 <= i < |line| - 2 && line[1..][i] == '/' ensures line[1..][i + 1] !in {'/', '*'} {
        assert line[i + 1] == '/';
      }
      CleanLineIsKept(line[1..]);
      assert line == [line[0]] + line[1..];
    }
  }

  lemma {:induction false} CleanIsKept(lines: seq<string>)
    requires forall i | 0 <= i < |lines| :: Clean(lines[i])
    ensures Strip(lines, 0) == lines
  {
    if lines != [] {
      CleanLineIsKept(lines[0]);
      CleanIsKept(lines[1..]);
    }
  }

  lemma StripIdempotent(lines: seq<string>)
    ensures Strip(Strip(lines, 0), 0) == Strip(lines, 0)
  {
    StripFacts(lines, 0);
    CleanIsKept(Strip(lines, 0));
  }

  // ----- a comment is removed with everything nested in it

  /** The inside of a comment: single characters, and whole nested comments. */
  datatype Body = End | Plain(c: char, rest: Body) | Nested(inner: Body, rest: Body)

  function Render(b: Body): string {
    match b
    case End => ""
    case Plain(c, rest) => [c] + Render(rest)
    case Nested(inner, rest) => "/*" + Render(inner) + "*/" + Render(rest)
  }

  /** Followed by `next`, the characters of the body that stand alone are read alone: none of them
      opens or closes a comment together with what comes after it. */
  predicate ReadsAlone(b: Body, next: string) {
    match b
    case End => true
    case Plain(c, rest) =>
      var text := [c] + (Render(rest) + next);
      !Starts(text, '/', '*') && !Starts(text, '*', '/') && ReadsAlone(rest, next)
    case Nested(inner, rest) => ReadsAlone(inner, "*/" + (Render(rest) + next)) && ReadsAlone(rest, next)
  }

  lemma SkipMarker(a: char, b: char, rest: string)
    ensures Starts([a, b] + rest, a, b) && ([a, b] + rest)[2..] == rest
  {
  }

  lemma RenderPlain(c: char, rest: Body, after: string)
    ensures Render(Plain(c, rest)) + after == [c] + (Render(rest) + after)
  {
  }

  lemma RenderNested(inner: Body, rest: Body, after: string)
    ensures Render(Nested(inner, rest)) + after == "/*" + (Render(inner) + ("*/" + (Render(rest) + after)))
  {
    var open, x, close, y := "/*", Render(inner), "*/", Render(rest);
    assert open + x + close + y + after == open + (x + (close + (y + after)));
  }

  lemma SkipOne(c: char, text: string, depth: nat)
    requires depth > 0 && !Starts([c] + text, '/', '*') && !Starts([c] + text, '*', '/')
    ensures StripLine([c] + text, depth) == StripLine(text, depth)
  {
    assert ([c] + text)[1..] == text;
  }

  lemma SkipOpening(text: string, depth: nat)
    ensures StripLine("/*" + text, depth) == StripLine(text, depth + 1)
  {
    SkipMarker('/', '*', text);
  }

  lemma SkipClosing(text: string, depth: nat)
    requires depth > 0
    ensures StripLine("*/" + text, depth) == StripLine(text, depth - 1)
  {
    SkipMarker('*', '/', text);
  }

  /** From inside a comment at any depth, a body is skipped and the depth is back where it was. */
  lemma {:induction false} BodySkipped(b: Body, after: string, depth: nat)
    requires ReadsAlone(b, after) && depth > 0
    ensures StripLine(Render(b) + after, depth) == StripLine(after, depth)
    decreases b
  {
    match b
    case End =>
      assert Render(b) + after == after;
    case Plain(c, rest) =>
      RenderPlain(c, rest, after);
      SkipOne(c, Render(rest) + after, depth);
      BodySkipped(rest, after, depth);
    case Nested(inner, rest) =>
      var tail := Render(rest) + after;
      RenderNested(inner, rest, after);
      SkipOpening(Render(inner) + ("*/" + tail), depth);
      BodySkipped(inner, "*/" + tail, depth + 1);
      SkipClosing(tail, depth + 1);
      BodySkipped(rest, after, depth);
  }

  /** A comment in a line contributes nothing, however deeply it nests. */
  lemma NestedCommentRemoved(b: Body, after: string)
    requires ReadsAlone(b, "*/" + after)
    ensures StripLine("/*" + Render(b) + "*/" + after, 0) == StripLine(after, 0)
  {
    assert "/*" + Render(b) + "*/" + after == "/*" + (Render(b) + ("*/" + after));
    SkipOpening(Render(b) + ("*/" + after), 0);
    BodySkipped(b, "*/" + after, 1);
    SkipClosing(after, 1);
  }

  // ----- every text after an opening marker is such a body, or is never closed

  /** The body at the start of a text and the text from its closing marker on; None when the line
      ends first. */
  function ParseBody(text: string): (r: Option<(Body, string)>)
    ensures r.Some? ==> |r.value.1| <= |text| && Starts(r.value.1, '*', '/')
    decreases |text|
  {
    if text == "" then None
    else if Starts(text, '*', '/') then Some((End, text))
    else if Starts(text, '/', '*') then
      match ParseBody(text[2..])
      case None => None
      case Some((inner, closing)) => (
        match ParseBody(closing[2..])
        case None => None
        case Some((rest, after)) => Some((Nested(inner, rest), after)))
    else
      match ParseBody(text[1..])
      case None => None
      case Some((rest, after)) => Some((Plain(text[0], rest), after))
  }

  lemma {:induction false} ParsedBody(text: string)
    requires ParseBody(text).Some?
    ensures text == Render(ParseBody(text).value.0) + ParseBody(text).value.1
    ensures ReadsAlone(ParseBody(text).value.0, ParseBody(text).value.1)
    decreases |text|
  {
    if Starts(text, '*', '/') {
      assert Render(End) + text == text;
    } else if Starts(text, '/', '*') {
      var (inner, closing) := ParseBody(text[2..]).value;
      var (rest, after) := ParseBody(closing[2..]).value;
      ParsedBody(text[2..]);
      ParsedBody(closing[2..]);
      Marked(text, '/', '*');
      Marked(closing, '*', '/');
      RenderNested(inner, rest, after);
    } else {
      var (rest, after) := ParseBody(text[1..]).value;
      ParsedBody(text[1..]);
      assert text == [text[0]] + text[1..];
      RenderPlain(text[0], rest, after);
    }
  }

  lemma Marked(text: string, a: char, b: char)
    requires Starts(text, a, b)
    ensures text == [a, b] + text[2..]
  {
  }

  lemma {:induction false} UnclosedSkipped(text: string, depth: nat)
    requires ParseBody(text).None? && depth > 0
    ensures StripLine(text, depth).0 == "" && StripLine(text, depth).1 >= depth
    decreases |text|
  {
    if text != "" {
      if Starts(text, '/', '*') {
        var inner := ParseBody(text[2..]);
        if inner.None? {
          UnclosedSkipped(text[2..], depth + 1);
        } else {
          var closing := inner.value.1;
          ParsedBody(text[2..]);
          BodySkipped(inner.value.0, closing, depth + 1);
          UnclosedSkipped(closing[2..], depth);
        }
      } else {
        UnclosedSkipped(text[1..], depth);
      }
    }
  }

  /** Any comment at all: what follows an opening marker is removed up to the marker that closes it,
      nested comments included, or to the end of the line, which is then still inside the comment. */
  lemma CommentRemoved(text: string)
    ensures match ParseBody(text)
            case Some((b, closing)) => text == Render(b) + closing
                && StripLine("/*" + text, 0) == StripLine(closing[2..], 0)
            case None => StripLine("/*" + text, 0).0 == "" && StripLine("/*" + text, 0).1 >= 1
  {
    SkipOpening(text, 0);
    if ParseBody(text).Some? {
      var (b, closing) := ParseBody(text).value;
      ParsedBody(text);
      BodySkipped(b, closing, 1);
      Marked(closing, '*', '/');
      SkipClosing(closing[2..], 1);
    } else {
      UnclosedSkipped(text, 1);
    }
  }
}
