/** JSON Pointer text (RFC 6901, sections 3 and 4), by way of Python's `replace`,
    `split` and `join`. */
module JsonPointer {
  import opened Sequences

  /** `s.replace(find, new)`: leftmost occurrences, without overlap. */
  function Replace(s: string, find: string, put: string): string
    requires find != ""
  {
    if |s| < |find| then s
    else if s[..|find|] == find then put + Replace(s[|find|..], find, put)
    else [s[0]] + Replace(s[1..], find, put)
  }

  function Escape(segment: string): string {
    Replace(Replace(segment, "~", "~0"), "/", "~1")
  }

  function Unescape(segment: string): string {
    Replace(Replace(segment, "~1", "/"), "~0", "~")
  }

  /** `"/".join(parts)` */
  function Join(parts: seq<string>): string
    requires parts != []
  {
    if |parts| == 1 then parts[0] else parts[0] + "/" + Join(parts[1..])
  }

  /** `s.split("/")` */
  function Split(s: string): (r: seq<string>)
    ensures r != []
  {
    if s == "" then [""]
    else
      var rest := Split(s[1..]);
      if s[0] == '/' then [""] + rest else [[s[0]] + rest[0]] + rest[1..]
  }

  function Map(f: string -> string, parts: seq<string>): (r: seq<string>)
    ensures |r| == |parts| && forall i | 0 <= i < |parts| :: r[i] == f(parts[i])
  {
    seq(|parts|, i requires 0 <= i < |parts| => f(parts[i]))
  }

  function Pointer(segments: seq<string>): string {
    if segments == [] then "" else "/" + Join(Map(Escape, segments))
  }

  function ParsePointer(value: string): Option<seq<string>> {
    if value == "" then Some([])
    else if value[0] != '/' then None
    else Some(Map(Unescape, Split(value[1..])))
  }

  // ----- escaping, character by character

  function Code(c: char): string {
    if c == '~' then "~0" else if c == '/' then "~1" else [c]
  }

  function Coded(s: string): string {
    if s == "" then "" else Code(s[0]) + Coded(s[1..])
  }

  /** Only the tilde coded: what remains after "~1" has been replaced. */
  function HalfCoded(s: string): string {
    if s == "" then "" else (if s[0] == '~' then "~0" else [s[0]]) + HalfCoded(s[1..])
  }

  lemma ReplaceMiss(c: char, s: string, find: string, put: string)
    requires find != "" && c != find[0]
    ensures Replace([c] + s, find, put) == [c] + Replace(s, find, put)
  {
    var t := [c] + s;
    assert t[1..] == s;
    if |t| < |find| {
    } else {
      assert t[..|find|][0] == c;
    }
  }

  lemma ReplaceHit(s: string, find: string, put: string)
    requires find != ""
    ensures Replace(find + s, find, put) == put + Replace(s, find, put)
  {
    assert (find + s)[..|find|] == find && (find + s)[|find|..] == s;
  }

  lemma {:induction false} TildesReplaced(s: string)
    ensures Replace(s, "~", "~0") == HalfCoded(s)
  {
    if s != "" {
      TildesReplaced(s[1..]);
      assert s == [s[0]] + s[1..];
      if s[0] == '~' {
        assert s == "~" + s[1..];
        ReplaceHit(s[1..], "~", "~0");
      } else {
        ReplaceMiss(s[0], s[1..], "~", "~0");
      }
    }
  }

  lemma {:induction false} SlashesReplaced(s: string)
    ensures Replace(HalfCoded(s), "/", "~1") == Coded(s)
  {
    if s != "" {
      SlashesReplaced(s[1..]);
      var rest := HalfCoded(s[1..]);
      if s[0] == '~' {
        assert "~0" + rest == "~" + ("0" + rest);
        ReplaceMiss('~', "0" + rest, "/", "~1");
        ReplaceMiss('0', rest, "/", "~1");
      } else if s[0] == '/' {
        assert HalfCoded(s) == "/" + rest;
        ReplaceHit(rest, "/", "~1");
      } else {
        ReplaceMiss(s[0], rest, "/", "~1");
      }
    }
  }

  lemma EscapeIsCoded(s: string)
    ensures Escape(s) == Coded(s)
  {
    TildesReplaced(s);
    SlashesReplaced(s);
  }

  lemma {:induction false} SlashesRestored(s: string)
    ensures Replace(Coded(s), "~1", "/") == HalfCoded(s)
  {
    if s != "" {
      SlashesRestored(s[1..]);
      var rest := Coded(s[1..]);
      if s[0] == '~' {
        var t := "~0" + rest;
        assert t[..2] == "~0" && t[1..] == "0" + rest;
        assert Replace(t, "~1", "/") == "~" + Replace("0" + rest, "~1", "/");
        ReplaceMiss('0', rest, "~1", "/");
      } else if s[0] == '/' {
        ReplaceHit(rest, "~1", "/");
      } else {
        ReplaceMiss(s[0], rest, "~1", "/");
      }
    }
  }

  lemma {:induction false} TildesRestored(s: string)
    ensures Replace(HalfCoded(s), "~0", "~") == s
  {
    if s != "" {
      TildesRestored(s[1..]);
      var rest := HalfCoded(s[1..]);
      assert s == [s[0]] + s[1..];
      if s[0] == '~' {
        ReplaceHit(rest, "~0", "~");
      } else {
        ReplaceMiss(s[0], rest, "~0", "~");
      }
    }
  }

  /** Unescaping undoes escaping, for every segment. */
  lemma UnescapeEscape(s: string)
    ensures Unescape(Escape(s)) == s
  {
    EscapeIsCoded(s);
    SlashesRestored(s);
    TildesRestored(s);
  }

  /** Every tilde is followed by 0 or 1. */
  predicate WellEscaped(s: string) {
    forall i | 0 <= i < |s| && s[i] == '~' :: i + 1 < |s| && s[i + 1] in {'0', '1'}
  }

  lemma {:induction false} CodedShape(s: string)
    ensures WellEscaped(Coded(s)) && '/' !in Coded(s)
  {
    if s != "" {
      CodedShape(s[1..]);
      var c, rest := Code(s[0]), Coded(s[1..]);
      forall i | 0 <= i < |c + rest| && (c + rest)[i] == '~'
        ensures i + 1 < |c + rest| && (c + rest)[i + 1] in {'0', '1'}
      {
        if i >= |c| { assert rest[i - |c|] == '~'; }
      }
    }
  }

  /** A well-escaped string without slashes is the escape of some string. */
  lemma {:induction false} Decoded(s: string) returns (t: string)
    requires WellEscaped(s) && '/' !in s
    ensures Coded(t) == s
  {
    if s == "" {
      t := "";
    } else if s[0] == '~' {
      var rest := s[2..];
      forall i | 0 <= i < |rest| && rest[i] == '~' ensures i + 1 < |rest| && rest[i + 1] in {'0', '1'} {
        assert s[i + 2] == '~';
      }
      var u := Decoded(rest);
      t := (if s[1] == '0' then "~" else "/") + u;
      assert t[1..] == u && s == s[..2] + rest && s[..2] == ['~', s[1]];
    } else {
      var rest := s[1..];
      forall i | 0 <= i < |rest| && rest[i] == '~' ensures i + 1 < |rest| && rest[i + 1] in {'0', '1'} {
        assert s[i + 1] == '~';
      }
      var u := Decoded(rest);
      t := [s[0]] + u;
      assert t[1..] == u && s == [s[0]] + rest;
    }
  }

  /** Escaping undoes unescaping exactly on well-escaped segments. */
  lemma EscapeUnescape(s: string)
    requires '/' !in s
    ensures Escape(Unescape(s)) == s <==> WellEscaped(s)
  {
    EscapeIsCoded(Unescape(s));
    CodedShape(Unescape(s));
    if WellEscaped(s) {
      var t := Decoded(s);
      EscapeIsCoded(t);
      UnescapeEscape(t);
    }
  }

  // ----- split and join

  lemma {:induction false} SplitHasNoSlash(s: string)
    ensures forall i | 0 <= i < |Split(s)| :: '/' !in Split(s)[i]
  {
    if s != "" { SplitHasNoSlash(s[1..]); }
  }

  lemma {:induction false} JoinSplit(s: string)
    ensures Join(Split(s)) == s
  {
    if s != "" {
      JoinSplit(s[1..]);
      var rest := Split(s[1..]);
      if s[0] == '/' {
        assert ([""] + rest)[1..] == rest;
        assert s == "" + "/" + s[1..];
      } else {
        var r := [[s[0]] + rest[0]] + rest[1..];
        assert Split(s) == r;
        if |rest| == 1 {
          assert s == [s[0]] + s[1..];
        } else {
          assert r[1..] == rest[1..];
          assert s == [s[0]] + (rest[0] + "/" + Join(rest[1..]));
        }
      }
    }
  }

  lemma {:induction false} SplitPlain(s: string)
    requires '/' !in s
    ensures Split(s) == [s]
  {
    if s != "" {
      SplitPlain(s[1..]);
      assert s == [s[0]] + s[1..];
    }
  }

  lemma {:induction false} SplitAtSlash(a: string, b: string)
    requires '/' !in a
    ensures Split(a + "/" + b) == [a] + Split(b)
  {
    if a == "" {
      assert a + "/" + b == "/" + b && ("/" + b)[1..] == b;
    } else {
      SplitAtSlash(a[1..], b);
      var s := a + "/" + b;
      assert s[1..] == a[1..] + "/" + b && s[0] == a[0];
      assert [a[0]] + a[1..] == a;
    }
  }

  lemma {:induction false} SplitJoin(parts: seq<string>)
    requires parts != [] && forall i | 0 <= i < |parts| :: '/' !in parts[i]
    ensures Split(Join(parts)) == parts
  {
    if |parts| == 1 {
      SplitPlain(parts[0]);
      assert parts == [parts[0]];
    } else {
      SplitJoin(parts[1..]);
      SplitAtSlash(parts[0], Join(parts[1..]));
      assert parts == [parts[0]] + parts[1..];
    }
  }

  // ----- the two round trips

  /** Every list of segments survives printing and parsing. */
  lemma ParseOfPointer(segments: seq<string>)
    ensures ParsePointer(Pointer(segments)) == Some(segments)
  {
    if segments != [] {
      var parts := Map(Escape, segments);
      forall i | 0 <= i < |parts| ensures '/' !in parts[i] && Unescape(parts[i]) == segments[i] {
        EscapeIsCoded(segments[i]);
        CodedShape(segments[i]);
        UnescapeEscape(segments[i]);
      }
      SplitJoin(parts);
      assert Pointer(segments)[1..] == Join(parts);
      assert Map(Unescape, parts) == segments;
    }
  }

  /** Printing is injective on lists of segments. */
  lemma PointerInjective(a: seq<string>, b: seq<string>)
    requires Pointer(a) == Pointer(b)
    ensures a == b
  {
    ParseOfPointer(a);
    ParseOfPointer(b);
  }

  /** A pointer that parses survives parsing and printing exactly when each of its tildes is
      followed by 0 or 1. */
  lemma PointerOfParse(value: string)
    requires ParsePointer(value).Some?
    ensures Pointer(ParsePointer(value).value) == value <==> WellEscaped(value)
  {
    if value != "" {
      var body := value[1..];
      var parts := Split(body);
      SplitHasNoSlash(body);
      JoinSplit(body);
      var back := Map(Escape, Map(Unescape, parts));
      forall i | 0 <= i < |parts|
        ensures '/' !in back[i] && (back[i] == parts[i] <==> WellEscaped(parts[i]))
      {
        EscapeUnescape(parts[i]);
        EscapeIsCoded(Unescape(parts[i]));
        CodedShape(Unescape(parts[i]));
      }
      SplitJoin(back);
      assert value == "/" + body;
      assert Join(back) == body <==> back == parts;
      WellEscapedParts(body);
      assert WellEscaped(value) <==> WellEscaped(body) by { WellEscapedCons('/', body); }
    }
  }

  lemma WellEscapedCons(c: char, s: string)
    requires c != '~'
    ensures WellEscaped([c] + s) <==> WellEscaped(s)
  {
    var t := [c] + s;
    if WellEscaped(t) {
      forall i | 0 <= i < |s| && s[i] == '~' ensures i + 1 < |s| && s[i + 1] in {'0', '1'} {
        assert t[i + 1] == '~';
        assert t[i + 2] == s[i + 1];
      }
    }
    if WellEscaped(s) {
      forall i | 0 <= i < |t| && t[i] == '~' ensures i + 1 < |t| && t[i + 1] in {'0', '1'} {
        assert s[i - 1] == '~';
      }
    }
  }

  lemma WellEscapedJoin(a: string, b: string)
    requires '/' !in a
    ensures WellEscaped(a + "/" + b) <==> WellEscaped(a) && WellEscaped(b)
  {
    var s := a + "/" + b;
    if WellEscaped(s) {
      forall i | 0 <= i < |a| && a[i] == '~' ensures i + 1 < |a| && a[i + 1] in {'0', '1'} {
        assert s[i] == '~';
        assert s[i + 1] == if i + 1 == |a| then '/' else a[i + 1];
      }
      forall i | 0 <= i < |b| && b[i] == '~' ensures i + 1 < |b| && b[i + 1] in {'0', '1'} {
        assert s[|a| + 1 + i] == '~';
        assert s[|a| + 1 + i + 1] == b[i + 1];
      }
    }
    if WellEscaped(a) && WellEscaped(b) {
      forall i | 0 <= i < |s| && s[i] == '~' ensures i + 1 < |s| && s[i + 1] in {'0', '1'} {
        if i < |a| { assert a[i] == '~'; } else { assert b[i - |a| - 1] == '~'; }
      }
    }
  }

  lemma {:induction false} WellEscapedOfJoin(parts: seq<string>)
    requires parts != [] && forall i | 0 <= i < |parts| :: '/' !in parts[i]
    ensures WellEscaped(Join(parts)) <==> forall i | 0 <= i < |parts| :: WellEscaped(parts[i])
  {
    if |parts| > 1 {
      var rest := parts[1..];
      WellEscapedOfJoin(rest);
      WellEscapedJoin(parts[0], Join(rest));
      assert forall i | 0 <= i < |rest| :: rest[i] == parts[i + 1];
      if WellEscaped(parts[0]) && forall i | 0 <= i < |rest| :: WellEscaped(rest[i]) {
        forall i | 0 <= i < |parts| ensures WellEscaped(parts[i]) {
          if i > 0 { assert parts[i] == rest[i - 1]; }
        }
      }
    }
  }

  lemma WellEscapedParts(s: string)
    ensures WellEscaped(s) <==> forall i | 0 <= i < |Split(s)| :: WellEscaped(Split(s)[i])
  {
    SplitHasNoSlash(s);
    JoinSplit(s);
    WellEscapedOfJoin(Split(s));
  }
}
