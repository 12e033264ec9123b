/**
 The parser for the compiler's Make dependency rule, `dependency_paths` in crates/xlog-cuda/build.rs,
 and the question whether it inverts the printing of such rules.
 */
module DependencyRule {
  import opened Lists
  import opened Orders

  /** `char::is_whitespace`: the Unicode White_Space property. */
  predicate IsWhitespace(c: char) {
    || '\U{0009}' <= c <= '\U{000D}' || c == ' ' || c == '\U{0085}' || c == '\U{00A0}' || c == '\U{1680}'
    || '\U{2000}' <= c <= '\U{200A}' || c == '\U{2028}' || c == '\U{2029}' || c == '\U{202F}' || c == '\U{205F}'
    || c == '\U{3000}'
  }

  // ---------------------------------------------------------------- the parser

  const CR_CONTINUATION: string := ['\\', '\r', '\n']
  const CONTINUATION: string := ['\\', '\n']

  /** `s.replace(pattern, "")`: leftmost, non-overlapping. */
  function RemoveAll(s: string, pattern: string): string
    requires |pattern| > 0
  {
    if |s| < |pattern| then s
    else if pattern <= s then RemoveAll(s[|pattern|..], pattern)
    else [s[0]] + RemoveAll(s[1..], pattern)
  }

  function Unfold(text: string): string {
    RemoveAll(RemoveAll(text, CR_CONTINUATION), CONTINUATION)
  }

  /** What follows the first colon. */
  function AfterColon(s: string): Result<string> {
    if |s| == 0 then Err("no dependency rule") else if s[0] == ':' then Ok(s[1..]) else AfterColon(s[1..])
  }

  function Flush(path: string): seq<string> {
    if path == "" then [] else [path]
  }

  function Prepend(first: seq<string>, r: Result<seq<string>>): Result<seq<string>> {
    if r.Ok? then Ok(first + r.value) else r
  }

  /** The paths read from `s` when `path` is the part of one already read. */
  function ReadPaths(s: string, path: string): Result<seq<string>>
    decreases |s|
  {
    if |s| == 0 then Ok(Flush(path))
    else if s[0] == '\\' then
      if |s| == 1 then Err("unfinished path escape") else ReadPaths(s[2..], path + [s[1]])
    else if s[0] == '$' && |s| > 1 && s[1] == '$' then ReadPaths(s[2..], path + ['$'])
    else if IsWhitespace(s[0]) then Prepend(Flush(path), ReadPaths(s[1..], ""))
    else ReadPaths(s[1..], path + [s[0]])
  }

  /** The pieces of a path between slashes. */
  function Pieces(s: string): (r: seq<string>)
    ensures |r| > 0
  {
    if |s| == 0 then [""]
    else
      var rest := Pieces(s[1..]);
      if s[0] == '/' then [""] + rest else [[s[0]] + rest[0]] + rest[1..]
  }

  function Named(pieces: seq<string>): seq<string> {
    if |pieces| == 0 then []
    else (if pieces[0] == "" || pieces[0] == "." then [] else [pieces[0]]) + Named(pieces[1..])
  }

  /** A path as the standard library compares it on Unix: repeated slashes and inner dots do not count. */
  function Components(s: string): (bool, bool, seq<string>) {
    var pieces := Pieces(s);
    (|s| > 0 && s[0] == '/', pieces[0] == ".", Named(pieces))
  }

  predicate SamePath(a: string, b: string) {
    Components(a) == Components(b)
  }

  /** Inserting into an ordered set of paths keeps the one that is there. */
  function InsertPath(paths: set<string>, p: string): set<string> {
    if exists q :: q in paths && SamePath(q, p) then paths else paths + {p}
  }

  function InsertAll(paths: set<string>, ps: seq<string>): set<string>
    decreases |ps|
  {
    if |ps| == 0 then paths else InsertAll(InsertPath(paths, ps[0]), ps[1..])
  }

  /** The set of paths of a rule. */
  function DependencyPaths(text: string): Result<set<string>> {
    var rest := AfterColon(Unfold(text));
    if rest.Err? then Err(rest.error)
    else
      var ps := ReadPaths(rest.value, "");
      if ps.Err? then Err(ps.error)
      else if |ps.value| == 0 then Err("no source dependencies")
      else Ok(InsertAll({}, ps.value))
  }

  lemma {:induction false} InsertAllConcat(paths: set<string>, ps: seq<string>, qs: seq<string>)
    ensures InsertAll(paths, ps + qs) == InsertAll(InsertAll(paths, ps), qs)
    decreases |ps|
  {
    if |ps| == 0 {
      assert ps + qs == qs;
    } else {
      assert (ps + qs)[1..] == ps[1..] + qs;
      InsertAllConcat(InsertPath(paths, ps[0]), ps[1..], qs);
    }
  }

  lemma {:induction false} InsertAllGrows(paths: set<string>, ps: seq<string>)
    ensures paths <= InsertAll(paths, ps)
    ensures InsertAll(paths, ps) <= paths + set p | p in ps
    decreases |ps|
  {
    if |ps| > 0 {
      InsertAllGrows(InsertPath(paths, ps[0]), ps[1..]);
    }
  }

  /** What the loop of `dependency_paths` still has to deliver. */
  ghost predicate ReadSoFar(s: string, i: nat, path: string, paths: set<string>) {
    && i <= |s|
    && var all, rest := ReadPaths(s, ""), ReadPaths(s[i..], path);
    && all.Ok? == rest.Ok?
    && (all.Ok? ==> InsertAll(paths, rest.value) == InsertAll({}, all.value))
    && (all.Err? ==> all.error == rest.error)
  }

  function FlushInto(paths: set<string>, path: string): set<string> {
    if path == "" then paths else InsertPath(paths, path)
  }

  lemma FlushStep(s: string, i: nat, path: string, paths: set<string>)
    requires ReadSoFar(s, i, path, paths) && i < |s| && s[i] != '\\' && s[i] != '$' && IsWhitespace(s[i])
    ensures ReadSoFar(s, i + 1, "", FlushInto(paths, path))
  {
    var rest := ReadPaths(s[i + 1..], "");
    assert s[i..][1..] == s[i + 1..];
    if rest.Ok? {
      InsertAllConcat(paths, Flush(path), rest.value);
      assert InsertAll(paths, Flush(path)) == FlushInto(paths, path);
    }
  }

  /** `dependency_paths`, up to the ordered set it collects. */
  method ParseDependencies(text: string) returns (r: Result<set<string>>)
    ensures r == DependencyPaths(text)
  {
    var split := AfterColon(Unfold(text));
    if split.Err? {
      return Err(split.error);
    }
    var s := split.value;
    var paths: set<string>, path: string, i := {}, "", 0;
    while i < |s|
      invariant ReadSoFar(s, i, path, paths)
      decreases |s| - i
    {
      assert s[i..][1..] == s[i + 1..];
      if s[i] == '\\' {
        if i + 1 == |s| {
          assert ReadPaths(s[i..], path).Err?;
          return Err("unfinished path escape");
        }
        assert s[i..][2..] == s[i + 2..];
        path := path + [s[i + 1]];
        i := i + 2;
      } else if s[i] == '$' && i + 1 < |s| && s[i + 1] == '$' {
        assert s[i..][2..] == s[i + 2..];
        path := path + ['$'];
        i := i + 2;
      } else if IsWhitespace(s[i]) {
        FlushStep(s, i, path, paths);
        if path != "" {
          paths := InsertPath(paths, path);
          path := "";
        }
        i := i + 1;
      } else {
        path := path + [s[i]];
        i := i + 1;
      }
    }
    assert s[i..] == "";
    assert InsertAll(paths, Flush(path)) == FlushInto(paths, path);
    if path != "" {
      paths := InsertPath(paths, path);
    }
    NoPathsIff({}, ReadPaths(s, "").value);
    if paths == {} {
      return Err("no source dependencies");
    }
    r := Ok(paths);
  }

  lemma NoPathsIff(paths: set<string>, ps: seq<string>)
    ensures InsertAll(paths, ps) == {} <==> paths == {} && |ps| == 0
  {
    if |ps| > 0 {
      InsertAllGrows(InsertPath(paths, ps[0]), ps[1..]);
      var next := InsertPath(paths, ps[0]);
      assert next != {} by {
        if exists q :: q in paths && SamePath(q, ps[0]) {
          var q :| q in paths && SamePath(q, ps[0]);
          assert q in next;
        } else {
          assert ps[0] in next;
        }
      }
    }
  }

  // ---------------------------------------------------------------- printing a rule

  /** What may stand before a path: a space, or a space and a line continuation. */
  datatype Separator = Space | NextLine | NextLineCr

  function SeparatorText(sep: Separator): string {
    match sep
    case Space => [' ']
    case NextLine => [' ', '\\', '\n']
    case NextLineCr => [' ', '\\', '\r', '\n']
  }

  function EscapeChar(c: char): string {
    if IsWhitespace(c) || c == '#' || c == '\\' then ['\\', c]
    else if c == '$' then ['$', '$']
    else [c]
  }

  function Escape(p: string): string {
    if |p| == 0 then "" else EscapeChar(p[0]) + Escape(p[1..])
  }

  function PrintPaths(ps: seq<string>, seps: seq<Separator>): string
    requires |ps| == |seps|
  {
    if |ps| == 0 then ""
    else SeparatorText(seps[0]) + Escape(ps[0]) + PrintPaths(ps[1..], seps[1..])
  }

  function PrintRule(ps: seq<string>, seps: seq<Separator>, newline: bool): string
    requires |ps| == |seps|
  {
    "kernel:" + (PrintPaths(ps, seps) + Tail(newline))
  }

  function Tail(newline: bool): string {
    if newline then ['\n'] else []
  }

  predicate Printable(p: string) {
    p != "" && '\r' !in p && '\n' !in p
  }

  // ---------------------------------------------------------------- removing continuations

  /** In `s`, read before `rest`, no backslash is followed by `c`. */
  ghost predicate Quiet(s: string, rest: string, c: char) {
    forall i :: 0 <= i < |s| && s[i] == '\\' && i + 1 < |s + rest| ==> (s + rest)[i + 1] != c
  }

  lemma QuietTail(s: string, rest: string, c: char)
    requires |s| > 0 && Quiet(s, rest, c)
    ensures Quiet(s[1..], rest, c)
  {
    forall i | 0 <= i < |s[1..]| && s[1..][i] == '\\' && i + 1 < |s[1..] + rest|
      ensures (s[1..] + rest)[i + 1] != c
    {
      assert s[i + 1] == '\\';
      assert (s[1..] + rest)[i + 1] == (s + rest)[i + 2];
    }
  }

  lemma QuietHead(s: string, rest: string, pattern: string)
    requires |s| > 0 && |pattern| >= 2 && pattern[0] == '\\' && Quiet(s, rest, pattern[1])
    ensures !(pattern <= s + rest)
  {
  }

  /** Text without a continuation start is kept by the removal. */
  lemma {:induction false} QuietIsKept(s: string, rest: string, pattern: string)
    requires |pattern| >= 2 && pattern[0] == '\\' && Quiet(s, rest, pattern[1])
    ensures RemoveAll(s + rest, pattern) == s + RemoveAll(rest, pattern)
    decreases |s|
  {
    if |s| == 0 {
      assert s + rest == rest;
    } else if |s + rest| < |pattern| {
      ShortIsKept(s + rest, pattern);
      ShortIsKept(rest, pattern);
    } else {
      QuietTail(s, rest, pattern[1]);
      QuietIsKept(s[1..], rest, pattern);
      QuietHead(s, rest, pattern);
      assert (s + rest)[1..] == s[1..] + rest;
      assert [s[0]] + (s[1..] + RemoveAll(rest, pattern)) == s + RemoveAll(rest, pattern);
    }
  }

  lemma ShortIsKept(s: string, pattern: string)
    requires 0 < |pattern| && |s| < |pattern|
    ensures RemoveAll(s, pattern) == s
  {
  }

  lemma {:induction false} EscapeIsQuiet(p: string, rest: string, c: char)
    requires c !in p && c != '\\' && (|rest| > 0 ==> rest[0] != c || |p| == 0 || p[|p| - 1] != '\\')
    ensures Quiet(Escape(p), rest, c)
  {
    if |p| > 0 {
      EscapeIsQuiet(p[1..], rest, c);
      var first, more := EscapeChar(p[0]), Escape(p[1..]);
      var s := first + more;
      forall i | 0 <= i < |s| && s[i] == '\\' && i + 1 < |s + rest|
        ensures (s + rest)[i + 1] != c
      {
        if i >= |first| {
          assert more[i - |first|] == '\\';
          assert (s + rest)[i + 1] == (more + rest)[i - |first| + 1];
        } else if i == 0 {
          assert (s + rest)[1] == p[0];
        } else {
          AfterBackslash(p[1..], rest, c);
          assert (s + rest)[i + 1] == (more + rest)[0];
        }
      }
    }
  }

  /** The character that follows a path's last escaped backslash. */
  lemma AfterBackslash(p: string, rest: string, c: char)
    requires c !in p && c != '\\' && |Escape(p) + rest| > 0 && (|p| == 0 ==> rest[0] != c)
    ensures (Escape(p) + rest)[0] != c
  {
  }

  function Plain(sep: Separator, dropped: Separator): Separator {
    if sep == dropped then Space else sep
  }

  function PlainAll(seps: seq<Separator>, dropped: Separator): (r: seq<Separator>)
    ensures |r| == |seps| && forall i :: 0 <= i < |r| ==> r[i] == Plain(seps[i], dropped)
  {
    seq(|seps|, i requires 0 <= i < |seps| => Plain(seps[i], dropped))
  }

  /** Removing one kind of continuation turns those separators into spaces and keeps the rest. */
  lemma {:induction false} RemovalPlains(ps: seq<string>, seps: seq<Separator>, tail: string, dropped: Separator)
    requires |ps| == |seps| && dropped != Space && forall i :: 0 <= i < |ps| ==> Printable(ps[i])
    requires dropped == NextLine ==> forall i :: 0 <= i < |seps| ==> seps[i] != NextLineCr
    requires |tail| > 0 && |ps| > 0 && tail[0] == Mark(dropped) ==> EndsPlain(ps)
    ensures RemoveAll(PrintPaths(ps, seps) + tail, Continuation(dropped))
            == PrintPaths(ps, PlainAll(seps, dropped)) + RemoveAll(tail, Continuation(dropped))
    decreases |ps|
  {
    var pattern := Continuation(dropped);
    if |ps| == 0 {
      assert PrintPaths(ps, seps) + tail == tail;
      assert PrintPaths(ps, PlainAll(seps, dropped)) + RemoveAll(tail, pattern) == RemoveAll(tail, pattern);
    } else {
      var seps' := PlainAll(seps, dropped);
      assert seps'[1..] == PlainAll(seps[1..], dropped);
      EndsPlainTail(ps);
      RemovalPlains(ps[1..], seps[1..], tail, dropped);
      FirstRemoval(ps, seps, tail, dropped);
      PrintedGroups(ps, seps', RemoveAll(tail, pattern));
    }
  }

  lemma FirstRemoval(ps: seq<string>, seps: seq<Separator>, tail: string, dropped: Separator)
    requires |ps| == |seps| > 0 && dropped != Space && Printable(ps[0])
    requires dropped == NextLine ==> seps[0] != NextLineCr
    requires |tail| > 0 && tail[0] == Mark(dropped) ==> EndsPlain(ps)
    ensures var more := PrintPaths(ps[1..], seps[1..]) + tail;
            RemoveAll(PrintPaths(ps, seps) + tail, Continuation(dropped))
            == SeparatorText(Plain(seps[0], dropped)) + (Escape(ps[0]) + RemoveAll(more, Continuation(dropped)))
  {
    PrintedGroups(ps, seps, tail);
    PlainBeforeMark(ps, seps, tail, dropped);
    PathRemoval(ps[0], seps[0], PrintPaths(ps[1..], seps[1..]) + tail, dropped);
  }

  lemma PlainBeforeMark(ps: seq<string>, seps: seq<Separator>, tail: string, dropped: Separator)
    requires |ps| == |seps| > 0 && dropped != Space && |ps[0]| > 0
    requires |tail| > 0 && tail[0] == Mark(dropped) ==> EndsPlain(ps)
    ensures var more := PrintPaths(ps[1..], seps[1..]) + tail;
            |more| > 0 && more[0] == Mark(dropped) ==> ps[0][|ps[0]| - 1] != '\\'
  {
    FirstAfter(ps, seps, tail);
  }

  /** Removal leaves a printed path alone and plains the separator before it. */
  lemma PathRemoval(p: string, sep: Separator, more: string, dropped: Separator)
    requires Printable(p) && dropped != Space && (dropped == NextLine ==> sep != NextLineCr)
    requires |more| > 0 && more[0] == Mark(dropped) ==> p[|p| - 1] != '\\'
    ensures RemoveAll(SeparatorText(sep) + (Escape(p) + more), Continuation(dropped))
            == SeparatorText(Plain(sep, dropped)) + (Escape(p) + RemoveAll(more, Continuation(dropped)))
  {
    EscapeIsQuiet(p, more, Mark(dropped));
    QuietIsKept(Escape(p), more, Continuation(dropped));
    SeparatorRemoved(sep, Escape(p) + more, dropped);
  }

  lemma EndsPlainTail(ps: seq<string>)
    requires |ps| > 0
    ensures |ps| > 1 && EndsPlain(ps) ==> EndsPlain(ps[1..])
  {
  }

  lemma PrintedGroups(ps: seq<string>, seps: seq<Separator>, tail: string)
    requires |ps| == |seps| > 0
    ensures PrintPaths(ps, seps) + tail
            == SeparatorText(seps[0]) + (Escape(ps[0]) + (PrintPaths(ps[1..], seps[1..]) + tail))
  {
    var after := PrintPaths(ps[1..], seps[1..]);
    Regroup(SeparatorText(seps[0]) + Escape(ps[0]), after, tail);
    Regroup(SeparatorText(seps[0]), Escape(ps[0]), after + tail);
  }

  /** What follows a path starts with a space, unless the path is the last. */
  lemma FirstAfter(ps: seq<string>, seps: seq<Separator>, tail: string)
    requires |ps| == |seps| > 0
    ensures var more := PrintPaths(ps[1..], seps[1..]) + tail;
            if |ps| > 1 then |more| > 0 && more[0] == ' ' else more == tail
  {
    if |ps| > 1 {
      PrintedGroups(ps[1..], seps[1..], tail);
    }
  }

  /** The last path does not end in a backslash. */
  predicate EndsPlain(ps: seq<string>) {
    |ps| > 0 && |ps[|ps| - 1]| > 0 && var last := ps[|ps| - 1]; last[|last| - 1] != '\\'
  }

  function Continuation(dropped: Separator): string {
    if dropped == NextLineCr then CR_CONTINUATION else CONTINUATION
  }

  /** The character after the backslash of a continuation. */
  function Mark(dropped: Separator): char {
    if dropped == NextLineCr then '\r' else '\n'
  }

  lemma SeparatorRemoved(sep: Separator, rest: string, dropped: Separator)
    requires dropped != Space && (dropped == NextLine ==> sep != NextLineCr)
    ensures RemoveAll(SeparatorText(sep) + rest, Continuation(dropped))
            == SeparatorText(Plain(sep, dropped)) + RemoveAll(rest, Continuation(dropped))
  {
    var pattern, text := Continuation(dropped), SeparatorText(sep);
    var all := text + rest;
    if sep == dropped {
      assert all == [' '] + (pattern + rest);
      assert all[1..] == pattern + rest;
      assert (pattern + rest)[|pattern|..] == rest;
      assert RemoveAll(all, pattern) == [' '] + RemoveAll(all[1..], pattern);
    } else {
      QuietIsKept(text, rest, pattern);
    }
  }

  // ---------------------------------------------------------------- reading a printed rule

  lemma {:induction false} EscapedIsRead(p: string, rest: string, acc: string)
    ensures ReadPaths(Escape(p) + rest, acc) == ReadPaths(rest, acc + p)
    decreases |p|
  {
    if |p| == 0 {
      assert Escape(p) + rest == rest && acc + p == acc;
    } else {
      var more := Escape(p[1..]) + rest;
      Regroup(EscapeChar(p[0]), Escape(p[1..]), rest);
      EscapedCharIsRead(p[0], more, acc);
      EscapedIsRead(p[1..], rest, acc + [p[0]]);
      assert acc + [p[0]] + p[1..] == acc + p;
    }
  }

  lemma EscapedCharIsRead(c: char, more: string, acc: string)
    ensures ReadPaths(EscapeChar(c) + more, acc) == ReadPaths(more, acc + [c])
  {
    var s := EscapeChar(c) + more;
    if |EscapeChar(c)| == 2 {
      assert s[2..] == more;
    } else {
      assert s[1..] == more;
    }
  }

  predicate AllSpaces(seps: seq<Separator>) {
    forall i :: 0 <= i < |seps| ==> seps[i] == Space
  }

  /** Paths separated by spaces are read back in order, whatever whitespace-led text follows. */
  lemma {:induction false} PrintedIsRead(ps: seq<string>, seps: seq<Separator>, rest: string, acc: string)
    requires |ps| == |seps| && AllSpaces(seps) && forall i :: 0 <= i < |ps| ==> Printable(ps[i])
    requires |rest| > 0 ==> IsWhitespace(rest[0])
    ensures ReadPaths(PrintPaths(ps, seps) + rest, acc)
            == Prepend(Flush(acc) + ps, if |rest| == 0 then Ok([]) else ReadPaths(rest[1..], ""))
    decreases |ps|
  {
    if |ps| == 0 {
      assert PrintPaths(ps, seps) + rest == rest && Flush(acc) + ps == Flush(acc);
    } else {
      PrintedGroups(ps, seps, rest);
      var more := PrintPaths(ps[1..], seps[1..]) + rest;
      var text := PrintPaths(ps, seps) + rest;
      assert text[0] == ' ' && text[1..] == Escape(ps[0]) + more;
      EscapedIsRead(ps[0], more, "");
      assert "" + ps[0] == ps[0];
      PrintedIsRead(ps[1..], seps[1..], rest, ps[0]);
      assert Flush(ps[0]) + ps[1..] == ps;
      assert ReadPaths(text, acc) == Prepend(Flush(acc), ReadPaths(more, ps[0]));
      PrependTwice(Flush(acc), ps, if |rest| == 0 then Ok([]) else ReadPaths(rest[1..], ""));
    }
  }

  lemma PrependTwice(a: seq<string>, b: seq<string>, r: Result<seq<string>>)
    ensures Prepend(a, Prepend(b, r)) == Prepend(a + b, r)
  {
    if r.Ok? {
      Regroup(a, b, r.value);
    }
  }

  lemma {:induction false} ColonFound(s: string, rest: string)
    requires ':' !in s
    ensures AfterColon(s + ([':'] + rest)) == Ok(rest)
    decreases |s|
  {
    var all := s + ([':'] + rest);
    if |s| == 0 {
      assert all[1..] == rest;
    } else {
      assert all[1..] == s[1..] + ([':'] + rest);
      ColonFound(s[1..], rest);
    }
  }

  function Spaces(n: nat): (seps: seq<Separator>)
    ensures |seps| == n && AllSpaces(seps)
  {
    seq(n, _ => Space)
  }

  predicate Calm(text: string) {
    |text| > 0 ==> text[0] != '\r' && text[0] != '\n'
  }

  /** Removal of both kinds of continuation from a rule whose text after the paths is `tail`. */
  lemma RuleUnfolds(ps: seq<string>, seps: seq<Separator>, tail: string)
    requires |ps| == |seps| && forall i :: 0 <= i < |ps| ==> Printable(ps[i])
    requires |ps| > 0 && !EndsPlain(ps) ==> Calm(tail) && Calm(RemoveAll(tail, CR_CONTINUATION))
    ensures Unfold("kernel:" + (PrintPaths(ps, seps) + tail))
            == "kernel:" + (PrintPaths(ps, Spaces(|ps|)) + Unfold(tail))
  {
    var seps' := PlainAll(seps, NextLineCr);
    RuleRemoval(ps, seps, tail, NextLineCr);
    RuleRemoval(ps, seps', RemoveAll(tail, CR_CONTINUATION), NextLine);
    assert PlainAll(seps', NextLine) == Spaces(|ps|);
  }

  /** Removing one kind of continuation from a rule. */
  lemma RuleRemoval(ps: seq<string>, seps: seq<Separator>, tail: string, dropped: Separator)
    requires |ps| == |seps| && dropped != Space && forall i :: 0 <= i < |ps| ==> Printable(ps[i])
    requires dropped == NextLine ==> forall i :: 0 <= i < |seps| ==> seps[i] != NextLineCr
    requires |tail| > 0 && |ps| > 0 && tail[0] == Mark(dropped) ==> EndsPlain(ps)
    ensures RemoveAll("kernel:" + (PrintPaths(ps, seps) + tail), Continuation(dropped))
            == "kernel:" + (PrintPaths(ps, PlainAll(seps, dropped)) + RemoveAll(tail, Continuation(dropped)))
  {
    RemovalPlains(ps, seps, tail, dropped);
    QuietIsKept("kernel:", PrintPaths(ps, seps) + tail, Continuation(dropped));
  }

  /** Reading back a printed rule, without or with a final newline. */
  lemma PrintedRuleIsRead(ps: seq<string>, seps: seq<Separator>, newline: bool)
    requires |ps| == |seps| > 0 && forall i :: 0 <= i < |ps| ==> Printable(ps[i])
    requires newline ==> EndsPlain(ps)
    ensures DependencyPaths(PrintRule(ps, seps, newline)) == Ok(InsertAll({}, ps))
  {
    var tail := Tail(newline);
    ShortIsKept(tail, CR_CONTINUATION);
    ShortIsKept(tail, CONTINUATION);
    RuleUnfolds(ps, seps, tail);
    PathsFound(ps, tail);
  }

  lemma PathsFound(ps: seq<string>, rest: string)
    requires |ps| > 0 && (forall i :: 0 <= i < |ps| ==> Printable(ps[i])) && rest in {"", ['\n']}
    ensures var split := AfterColon("kernel:" + (PrintPaths(ps, Spaces(|ps|)) + rest));
            split.Ok? && ReadPaths(split.value, "") == Ok(ps)
  {
    var body := PrintPaths(ps, Spaces(|ps|)) + rest;
    KernelColon(body);
    PrintedIsRead(ps, Spaces(|ps|), rest, "");
    assert Flush("") + ps + [] == ps;
  }

  lemma {:induction false} PrintedAppend(ps: seq<string>, seps: seq<Separator>)
    requires |ps| == |seps| > 0
    ensures var k := |ps| - 1;
            PrintPaths(ps, seps) == PrintPaths(ps[..k], seps[..k]) + (SeparatorText(seps[k]) + Escape(ps[k]))
    decreases |ps|
  {
    var k := |ps| - 1;
    if k == 0 {
      assert PrintPaths(ps[1..], seps[1..]) == "";
    } else {
      PrintedAppend(ps[1..], seps[1..]);
      assert ps[1..][..k - 1] == ps[..k][1..] && seps[1..][..k - 1] == seps[..k][1..];
      Regroup(SeparatorText(seps[0]) + Escape(ps[0]), PrintPaths(ps[..k][1..], seps[..k][1..]),
              SeparatorText(seps[k]) + Escape(ps[k]));
    }
  }

  lemma {:induction false} EscapeAppend(p: string, c: char)
    ensures Escape(p + [c]) == Escape(p) + EscapeChar(c)
    decreases |p|
  {
    if |p| == 0 {
      assert (p + [c])[1..] == "";
    } else {
      assert (p + [c])[1..] == p[1..] + [c];
      EscapeAppend(p[1..], c);
      Regroup(EscapeChar(p[0]), Escape(p[1..]), EscapeChar(c));
    }
  }

  /**
   A final newline right after a path that ends in a backslash is taken for a continuation, and
   what is left of the escape makes the parser refuse the rule.
   */
  lemma NewlineAfterBackslashIsRefused(ps: seq<string>, seps: seq<Separator>)
    requires |ps| == |seps| > 0 && forall i :: 0 <= i < |ps| ==> Printable(ps[i])
    requires !EndsPlain(ps)
    ensures DependencyPaths(PrintRule(ps, seps, true)).Err?
  {
    var k := |ps| - 1;
    var init, q := ps[..k], ps[k][..|ps[k]| - 1];
    assert Printable(ps[k]) && ps[k] == q + ['\\'];
    EscapeAppend(q, '\\');
    var tail, after := DanglingTail(seps[k], q), [' '] + (Escape(q) + ['\\']);
    PrintedAppend(ps, seps);
    assert PrintPaths(ps, seps) + ['\n'] == PrintPaths(init, seps[..k]) + tail;
    DanglingTailUnfolds(seps[k], q);
    RuleUnfolds(init, seps[..k], tail);
    DanglingEscape(init, q);
  }

  lemma DanglingEscape(ps: seq<string>, q: string)
    requires forall i :: 0 <= i < |ps| ==> Printable(ps[i])
    ensures var split := AfterColon("kernel:" + (PrintPaths(ps, Spaces(|ps|)) + ([' '] + (Escape(q) + ['\\']))));
            split.Ok? && ReadPaths(split.value, "").Err?
  {
    var after := [' '] + (Escape(q) + ['\\']);
    var body := PrintPaths(ps, Spaces(|ps|)) + after;
    KernelColon(body);
    assert after[1..] == Escape(q) + ['\\'];
    EscapedIsRead(q, ['\\'], "");
    PrintedIsRead(ps, Spaces(|ps|), after, "");
  }

  lemma KernelColon(body: string)
    ensures AfterColon("kernel:" + body) == Ok(body)
  {
    assert "kernel:" + body == "kernel" + ([':'] + body);
    ColonFound("kernel", body);
  }

  /** The last path `q + backslash`, printed, with the final newline. */
  function DanglingTail(sep: Separator, q: string): string {
    SeparatorText(sep) + (Escape(q) + ['\\', '\\', '\n'])
  }

  lemma DanglingTailUnfolds(sep: Separator, q: string)
    requires '\r' !in q && '\n' !in q
    ensures Calm(RemoveAll(DanglingTail(sep, q), CR_CONTINUATION))
    ensures Unfold(DanglingTail(sep, q)) == [' '] + (Escape(q) + ['\\'])
  {
    var end: string := ['\\', '\\', '\n'];
    var sep' := Plain(sep, NextLineCr);
    EscapeIsQuiet(q, end, '\r');
    QuietIsKept(Escape(q), end, CR_CONTINUATION);
    assert end[1..] == ['\\', '\n'];
    ShortIsKept(end[1..], CR_CONTINUATION);
    SeparatorRemoved(sep, Escape(q) + end, NextLineCr);
    assert RemoveAll(DanglingTail(sep, q), CR_CONTINUATION) == DanglingTail(sep', q);
    EscapeIsQuiet(q, end, '\n');
    QuietIsKept(Escape(q), end, CONTINUATION);
    assert CONTINUATION <= end[1..] && end[1..][2..] == "";
    assert RemoveAll(end, CONTINUATION) == ['\\'] + RemoveAll(end[1..], CONTINUATION) == ['\\'];
    SeparatorRemoved(sep', Escape(q) + end, NextLine);
  }

  // ---------------------------------------------------------------- which paths come back

  /** Different members denote different paths. */
  ghost predicate PathsDistinct(paths: set<string>) {
    forall p, q :: p in paths && q in paths && SamePath(p, q) ==> p == q
  }

  lemma {:induction false} InsertKeepsDistinct(paths: set<string>, ps: seq<string>)
    requires PathsDistinct(paths)
    ensures PathsDistinct(InsertAll(paths, ps))
    decreases |ps|
  {
    if |ps| > 0 {
      InsertKeepsDistinct(InsertPath(paths, ps[0]), ps[1..]);
    }
  }

  lemma {:induction false} DistinctAreAllKept(paths: set<string>, ps: seq<string>)
    requires PathsDistinct(paths + set p | p in ps)
    ensures InsertAll(paths, ps) == paths + set p | p in ps
    decreases |ps|
  {
    if |ps| > 0 {
      var all := paths + set p | p in ps;
      assert ps[0] in all;
      var next := InsertPath(paths, ps[0]);
      assert next == paths + {ps[0]};
      assert next + (set p | p in ps[1..]) == all by {
        assert ps == [ps[0]] + ps[1..];
      }
      DistinctAreAllKept(next, ps[1..]);
    }
  }

  /** Exactly the printed paths come back if and only if no two of them denote the same path. */
  lemma ReturnedExactlyIff(ps: seq<string>, seps: seq<Separator>, newline: bool)
    requires |ps| == |seps| > 0 && forall i :: 0 <= i < |ps| ==> Printable(ps[i])
    requires newline ==> EndsPlain(ps)
    ensures DependencyPaths(PrintRule(ps, seps, newline)) == Ok(set p | p in ps) <==> PathsDistinct(set p | p in ps)
  {
    PrintedRuleIsRead(ps, seps, newline);
    InsertKeepsDistinct({}, ps);
    if PathsDistinct(set p | p in ps) {
      assert {} + (set p | p in ps) == set p | p in ps;
      DistinctAreAllKept({}, ps);
    }
  }

  /** Parsing inverts printing: the whole condition, for every rule the printer can write. */
  lemma ParsingInvertsPrintingIff(ps: seq<string>, seps: seq<Separator>, newline: bool)
    requires |ps| == |seps| > 0 && forall i :: 0 <= i < |ps| ==> Printable(ps[i])
    ensures DependencyPaths(PrintRule(ps, seps, newline)) == Ok(set p | p in ps)
            <==> PathsDistinct(set p | p in ps) && (newline ==> EndsPlain(ps))
  {
    if newline && !EndsPlain(ps) {
      NewlineAfterBackslashIsRefused(ps, seps);
    } else {
      ReturnedExactlyIff(ps, seps, newline);
    }
  }

  lemma PiecesGrow(c: char, s: string)
    ensures Pieces([c] + s) == if c == '/' then [""] + Pieces(s) else [[c] + Pieces(s)[0]] + Pieces(s)[1..]
  {
    assert ([c] + s)[1..] == s;
  }

  /** The pieces of "a/b" and "a//b". */
  lemma SlashedPieces()
    ensures Pieces("a/b") == ["a", "b"] && Pieces("a//b") == ["a", "", "b"]
  {
    PiecesGrow('b', "");
    assert ['b'] + "" == "b" && Pieces("b") == ["b"];
    PiecesGrow('/', "b");
    assert ['/'] + "b" == "/b" && Pieces("/b") == ["", "b"];
    PiecesGrow('/', "/b");
    assert ['/'] + "/b" == "//b" && Pieces("//b") == ["", "", "b"];
    PiecesGrow('a', "/b");
    assert ['a'] + "/b" == "a/b" && ['a'] + "" == "a";
    PiecesGrow('a', "//b");
    assert ['a'] + "//b" == "a//b";
  }

  lemma SlashedSamePath()
    ensures SamePath("a/b", "a//b")
  {
    SlashedPieces();
    assert ["b"][1..] == [] && Named(["b"]) == ["b"];
    assert ["a", "b"][1..] == ["b"] && Named(["a", "b"]) == ["a", "b"];
    assert ["", "b"][1..] == ["b"] && Named(["", "b"]) == ["b"];
    assert ["a", "", "b"][1..] == ["", "b"] && Named(["a", "", "b"]) == ["a", "b"];
  }

  /** A doubled slash is enough for one of two printed paths to be dropped. */
  lemma DoubledSlashIsDropped()
    ensures SamePath("a/b", "a//b")
    ensures DependencyPaths(PrintRule(["a/b", "a//b"], [Space, Space], false)) == Ok({"a/b"})
  {
    SlashedSamePath();
    var ps := ["a/b", "a//b"];
    PrintedRuleIsRead(ps, [Space, Space], false);
    InsertsOne();
  }

  lemma InsertsOne()
    ensures InsertAll({}, ["a/b", "a//b"]) == {"a/b"}
  {
    SlashedSamePath();
    var ps := ["a/b", "a//b"];
    assert ps[1..] == ["a//b"] && ps[1..][1..] == [];
    assert InsertPath({}, "a/b") == {"a/b"};
    assert "a/b" in {"a/b"};
    assert InsertPath({"a/b"}, "a//b") == {"a/b"};
    assert InsertAll({"a/b"}, ps[1..]) == {"a/b"};
  }

  // ---------------------------------------------------------------- the order they are listed in

  /** A path's components, as the standard library yields them. */
  datatype Component = Root | Here | Up | Name(name: string)

  function NamedComponents(names: seq<string>): (r: seq<Component>)
    ensures |r| == |names| && forall i :: 0 <= i < |r| ==> r[i] == if names[i] == ".." then Up else Name(names[i])
  {
    seq(|names|, i requires 0 <= i < |names| => if names[i] == ".." then Up else Name(names[i]))
  }

  function ComponentList(path: string): seq<Component> {
    var (rooted, here, names) := Components(path);
    (if rooted then [Root] else if here then [Here] else []) + NamedComponents(names)
  }

  function Rank(c: Component): nat {
    match c
    case Root => 0
    case Here => 1
    case Up => 2
    case Name(_) => 3
  }

  function ComponentLess(): (Component, Component) -> bool {
    (c: Component, d: Component) => Rank(c) < Rank(d) || (c.Name? && d.Name? && StringLess()(c.name, d.name))
  }

  /** Paths in the order of their components. */
  function PathLess(): (string, string) -> bool {
    (a: string, b: string) => Lexicographic(ComponentLess())(ComponentList(a), ComponentList(b))
  }

  lemma SamePathIff(a: string, b: string)
    ensures SamePath(a, b) <==> ComponentList(a) == ComponentList(b)
  {
    var (ra, ha, na) := Components(a);
    var (rb, hb, nb) := Components(b);
    if ComponentList(a) == ComponentList(b) {
      var x, y := ComponentList(a), ComponentList(b);
      assert ra == (|x| > 0 && x[0] == Root) && rb == (|y| > 0 && y[0] == Root);
      assert ha == (|x| > 0 && x[0] == Here) && hb == (|y| > 0 && y[0] == Here);
      var k := if ra || ha then 1 else 0;
      assert NamedComponents(na) == x[k..] && NamedComponents(nb) == y[k..];
      NamedAreApart(na, nb);
    }
  }

  lemma NamedAreApart(a: seq<string>, b: seq<string>)
    requires NamedComponents(a) == NamedComponents(b)
    ensures a == b
  {
    forall i | 0 <= i < |a|
      ensures a[i] == b[i]
    {
      assert NamedComponents(a)[i] == NamedComponents(b)[i];
    }
  }

  lemma NamesAreOrdered(a: string, b: string)
    ensures (StringLess()(a, b) || StringLess()(b, a)) <==> a != b
  {
    StringsAreOrdered();
  }

  lemma ComponentsAreOrdered()
    ensures Transitive(ComponentLess()) && Linear(ComponentLess())
  {
    StringsAreOrdered();
    forall c: Component, d: Component
      ensures (ComponentLess()(c, d) || ComponentLess()(d, c)) <==> c != d
    {
      if c.Name? && d.Name? {
        NamesAreOrdered(c.name, d.name);
        assert c == Name(c.name) && d == Name(d.name);
      } else {
        assert Rank(c) == Rank(d) ==> c == d;
      }
    }
  }

  /** Of two paths one is below the other, unless they are the same to the standard library. */
  lemma PathsAreOrdered(a: string, b: string)
    ensures Transitive(PathLess())
    ensures PathLess()(a, b) || PathLess()(b, a) <==> !SamePath(a, b)
  {
    ComponentsAreOrdered();
    LexicographicIsOrder(ComponentLess());
    SamePathIff(a, b);
    forall x, y, z | PathLess()(x, y) && PathLess()(y, z)
      ensures PathLess()(x, z)
    {
      var less := Lexicographic(ComponentLess());
      assert less(ComponentList(x), ComponentList(y)) && less(ComponentList(y), ComponentList(z));
    }
  }

  ghost predicate ListsPaths(list: seq<string>, paths: set<string>) {
    Ascends(PathLess(), list) && forall p :: p in list <==> p in paths
  }

  /** `dependency_paths`: the paths in their order. */
  method ListDependencies(text: string) returns (r: Result<seq<string>>)
    ensures r.Ok? <==> DependencyPaths(text).Ok?
    ensures r.Err? ==> r.error == DependencyPaths(text).error
    ensures r.Ok? ==> ListsPaths(r.value, DependencyPaths(text).value)
  {
    var paths := ParseDependencies(text);
    if paths.Err? {
      return Err(paths.error);
    }
    KeptAreDistinct(text);
    var list: seq<string>, rest := [], paths.value;
    while rest != {}
      invariant rest <= paths.value && ListsPaths(list, paths.value - rest)
      decreases rest
    {
      var p :| p in rest;
      PathsComparable(paths.value, list, p);
      list := InsertInOrder(PathLess(), p, list);
      rest := rest - {p};
    }
    r := Ok(list);
  }

  lemma KeptAreDistinct(text: string)
    requires DependencyPaths(text).Ok?
    ensures PathsDistinct(DependencyPaths(text).value)
  {
    InsertKeepsDistinct({}, ReadPaths(AfterColon(Unfold(text)).value, "").value);
  }

  lemma PathsComparable(paths: set<string>, list: seq<string>, p: string)
    requires PathsDistinct(paths) && p in paths && p !in list && forall q :: q in list ==> q in paths
    ensures Transitive(PathLess()) && forall q :: q in list ==> PathLess()(p, q) || PathLess()(q, p)
  {
    PathsAreOrdered(p, p);
    forall q | q in list
      ensures PathLess()(p, q) || PathLess()(q, p)
    {
      PathsAreOrdered(p, q);
    }
  }

  /** There is only one list of a set of paths in order. */
  lemma ListIsUnique(list: seq<string>, other: seq<string>, paths: set<string>)
    requires ListsPaths(list, paths) && ListsPaths(other, paths)
    ensures list == other && |list| == |paths|
  {
    PathsAreOrdered("", "");
    forall a: string
      ensures !PathLess()(a, a)
    {
      PathsAreOrdered(a, a);
    }
    AscendingIsUnique(PathLess(), list, other);
    AscendingIsDistinct(PathLess(), list);
    DistinctCount(list, paths);
  }

  lemma {:induction false} DistinctCount(list: seq<string>, paths: set<string>)
    requires NoDuplicates(list) && forall p :: p in list <==> p in paths
    ensures |list| == |paths|
  {
    if |list| > 0 {
      assert list == [list[0]] + list[1..] && list[0] in list;
      DistinctCount(list[1..], paths - {list[0]});
    } else {
      assert paths == {};
    }
  }
}
