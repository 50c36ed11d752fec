/**
 * generateRelationships: the edge list main.py reads from relationships.txt, one
 * "a:b:weight" line per edge. Lines that start with a newline, a space or '/' are skipped;
 * any other line that cannot be read raises, and so ends the whole read.
 */
module Relationships {
  import opened Wrappers
  import opened Graphs

  /**
   * Why a line could not be read: it is empty (x[0] raises IndexError), it has fewer than
   * three ':'-separated fields (node[1] or node[2] raises IndexError), or its third field is
   * not an integer (int raises ValueError).
   */
  datatype LineError = EmptyLine | MissingField | BadWeight

  /** The read failed at line number `line` (counted from 0). */
  datatype ParseError = ParseError(line: nat, kind: LineError)

  /** What one line contributes: nothing, one edge, or an error. */
  datatype LineResult = Skip | Edge(rel: Relationship) | Bad(kind: LineError)

  // ---------------------------------------------------------------------------------------
  // The string operations the loop uses: rstrip("\n"), split(":") and int()

  /** x.rstrip("\n"): the line without all its trailing newlines. */
  function RStripNewlines(s: string): (r: string)
    ensures |r| <= |s| && r == s[..|r|]
    ensures |r| > 0 ==> r[|r| - 1] != '\n'
    ensures forall i | |r| <= i < |s| :: s[i] == '\n'
    decreases |s|
  {
    if |s| > 0 && s[|s| - 1] == '\n' then RStripNewlines(s[..|s| - 1]) else s
  }

  /** s.split(sep): the maximal runs of s between occurrences of sep, empty runs included. */
  function Split(s: string, sep: char): (fields: seq<string>)
    ensures |fields| > 0
    ensures forall i | 0 <= i < |fields| :: sep !in fields[i]
    decreases |s|
  {
    if s == [] then [[]]
    else
      var rest := Split(s[1..], sep);
      if s[0] == sep then [[]] + rest
      else [[s[0]] + rest[0]] + rest[1..]
  }

  /** sep.join(fields). */
  function Join(fields: seq<string>, sep: char): string
    requires |fields| > 0
    decreases |fields|
  {
    if |fields| == 1 then fields[0] else fields[0] + [sep] + Join(fields[1..], sep)
  }

  /** Splitting loses nothing: joining the fields with the separator gives back the string. */
  lemma {:induction false} SplitJoin(s: string, sep: char)
    ensures Join(Split(s, sep), sep) == s
    decreases |s|
  {
    if s != [] {
      var rest := Split(s[1..], sep);
      SplitJoin(s[1..], sep);
      if s[0] != sep && |rest| > 1 {
        var fields := Split(s, sep);
        assert fields[1..] == rest[1..];
        assert Join(fields, sep) == [s[0]] + (rest[0] + [sep] + Join(rest[1..], sep));
      }
    }
  }

  lemma {:induction false} SplitPrefix(a: string, t: string, sep: char)
    requires sep !in a
    ensures Split(a + t, sep) == [a + Split(t, sep)[0]] + Split(t, sep)[1..]
    decreases |a|
  {
    if a != [] {
      assert (a + t)[0] == a[0] && (a + t)[1..] == a[1..] + t;
      SplitPrefix(a[1..], t, sep);
      var rest := Split(a[1..] + t, sep);
      assert Split(a + t, sep) == [[a[0]] + rest[0]] + rest[1..];
      assert [a[0]] + (a[1..] + Split(t, sep)[0]) == a + Split(t, sep)[0];
    } else {
      var f := Split(t, sep);
      assert a + t == t && a + f[0] == f[0] && [f[0]] + f[1..] == f;
    }
  }

  /** Fields free of the separator are recovered from their join. */
  lemma {:induction false} JoinSplit(fields: seq<string>, sep: char)
    requires |fields| > 0 && forall i | 0 <= i < |fields| :: sep !in fields[i]
    ensures Split(Join(fields, sep), sep) == fields
    decreases |fields|
  {
    if |fields| == 1 {
      SplitPrefix(fields[0], [], sep);
      assert fields[0] + [] == fields[0];
    } else {
      var tail := Join(fields[1..], sep);
      JoinSplit(fields[1..], sep);
      assert fields[0] + [sep] + tail == fields[0] + ([sep] + tail);
      SplitPrefix(fields[0], [sep] + tail, sep);
      assert ([sep] + tail)[1..] == tail;
      assert fields[0] + [] == fields[0];
      assert [fields[0]] + fields[1..] == fields;
    }
  }

  /**
   * The ASCII characters int() ignores around a number: space, tab, newline, vertical tab,
   * form feed and carriage return. The separators '\x1c'..'\x1f' are not among them.
   */
  predicate IsSpace(c: char) {
    c == ' ' || c == '\t' || c == '\n' || c == '\r' || c == '\U{0B}' || c == '\U{0C}'
  }

  /** s without its leading whitespace. */
  function LStrip(s: string): (r: string)
    ensures |r| <= |s| && r == s[|s| - |r|..]
    ensures |r| > 0 ==> !IsSpace(r[0])
    ensures forall i | 0 <= i < |s| - |r| :: IsSpace(s[i])
    decreases |s|
  {
    if |s| > 0 && IsSpace(s[0]) then LStrip(s[1..]) else s
  }

  /** s without its trailing whitespace. */
  function RStrip(s: string): (r: string)
    ensures |r| <= |s| && r == s[..|r|]
    ensures |r| > 0 ==> !IsSpace(r[|r| - 1])
    ensures forall i | |r| <= i < |s| :: IsSpace(s[i])
    decreases |s|
  {
    if |s| > 0 && IsSpace(s[|s| - 1]) then RStrip(s[..|s| - 1]) else s
  }

  function Strip(s: string): string {
    RStrip(LStrip(s))
  }

  predicate IsDigit(c: char) {
    '0' <= c <= '9'
  }

  predicate AllDigits(s: string) {
    forall i | 0 <= i < |s| :: IsDigit(s[i])
  }

  /** The value of a string of decimal digits. */
  function DigitsValue(ds: string): nat
    requires AllDigits(ds)
    decreases |ds|
  {
    if ds == [] then 0
    else
      assert IsDigit(ds[|ds| - 1]);
      DigitsValue(ds[..|ds| - 1]) * 10 + (ds[|ds| - 1] as int - '0' as int)
  }

  /** int(s) on a str: optional whitespace, an optional sign, one or more digits, optional whitespace. */
  function ParseInt(s: string): Option<int> {
    ParseSigned(Strip(s))
  }

  /** int() on a string without surrounding whitespace. */
  function ParseSigned(t: string): Option<int> {
    if |t| > 0 && (t[0] == '+' || t[0] == '-') then
      var ds := t[1..];
      if |ds| > 0 && AllDigits(ds) then
        var v: int := DigitsValue(ds);
        Some(if t[0] == '-' then -v else v)
      else None
    else if |t| > 0 && AllDigits(t) then Some(DigitsValue(t))
    else None
  }

  /** The decimal digits of n, without leading zeros. */
  function NatToDigits(n: nat): (ds: string)
    ensures |ds| > 0 && AllDigits(ds)
    ensures ds[0] == '0' ==> n == 0
    decreases n
  {
    if n < 10 then [('0' as int + n) as char]
    else NatToDigits(n / 10) + [('0' as int + n % 10) as char]
  }

  /** str(n). */
  function IntToString(n: int): string {
    if n < 0 then "-" + NatToDigits(-n) else NatToDigits(n)
  }

  lemma {:induction false} NatToDigitsValue(n: nat)
    ensures DigitsValue(NatToDigits(n)) == n
    decreases n
  {
    if n >= 10 {
      var ds := NatToDigits(n);
      NatToDigitsValue(n / 10);
      assert ds[..|ds| - 1] == NatToDigits(n / 10);
    }
  }

  /** Whitespace after a string that neither starts nor ends with whitespace is stripped. */
  lemma StripTail(t: string, tail: string)
    requires |t| > 0 && !IsSpace(t[0]) && !IsSpace(t[|t| - 1])
    requires forall i | 0 <= i < |tail| :: IsSpace(tail[i])
    ensures Strip(t + tail) == t
  {
    assert (t + tail)[0] == t[0];
    assert LStrip(t + tail) == t + tail;
    RStripSpaces(t, tail);
  }

  lemma ParseUnsigned(ds: string)
    requires |ds| > 0 && AllDigits(ds)
    ensures ParseSigned(ds) == Some(DigitsValue(ds))
  {
    assert IsDigit(ds[0]);
  }

  lemma ParseNegative(ds: string)
    requires |ds| > 0 && AllDigits(ds)
    ensures ParseSigned("-" + ds) == Some(-(DigitsValue(ds) as int))
  {
    assert ("-" + ds)[1..] == ds;
  }

  /** int(str(n)) == n, also with whitespace after it. */
  lemma ParseIntString(n: int, tail: string)
    requires forall i | 0 <= i < |tail| :: IsSpace(tail[i])
    ensures ParseInt(IntToString(n) + tail) == Some(n)
  {
    var t := IntToString(n);
    var m: nat := if n < 0 then -n else n;
    var ds := NatToDigits(m);
    NatToDigitsValue(m);
    assert IsDigit(ds[0]) && IsDigit(ds[|ds| - 1]);
    if n < 0 {
      assert t[0] == '-' && t[|t| - 1] == ds[|ds| - 1];
      StripTail(t, tail);
      ParseNegative(ds);
    } else {
      StripTail(t, tail);
      ParseUnsigned(ds);
    }
  }

  lemma {:induction false} RStripSpaces(t: string, tail: string)
    requires |t| > 0 && !IsSpace(t[|t| - 1])
    requires forall i | 0 <= i < |tail| :: IsSpace(tail[i])
    ensures RStrip(t + tail) == t
    decreases |tail|
  {
    if tail == [] {
      assert t + tail == t;
    } else {
      var s := t + tail;
      assert s[..|s| - 1] == t + tail[..|tail| - 1];
      RStripSpaces(t, tail[..|tail| - 1]);
    }
  }

  // ---------------------------------------------------------------------------------------
  // One line, and the whole file

  /** The first characters that make the loop skip a line: a newline, a space or '/'. */
  predicate IsSkipMarker(c: char) {
    c == '\n' || c == ' ' || c == '/'
  }

  /** What the loop body of generateRelationships does with line x. */
  function ParseLine(x: string): LineResult {
    if |x| == 0 then Bad(EmptyLine)
    else if IsSkipMarker(x[0]) then Skip
    else
      var node := Split(RStripNewlines(x), ':');
      if |node| < 3 then Bad(MissingField)
      else
        match ParseInt(node[2])
        case None => Bad(BadWeight)
        case Some(w) => Edge(Relationship(node[0], node[1], w))
  }

  /**
   * s cut at its first two ':': the fields a, b and t hold no ':', and more, whatever follows
   * t, is empty or starts with ':'.
   */
  predicate Cut(s: string, a: string, b: string, t: string, more: string) {
    && s == a + [':'] + b + [':'] + t + more
    && ':' !in a && ':' !in b && ':' !in t
    && (more == [] || more[0] == ':')
  }

  /** split(":") yields one field more than the string has ':'. */
  lemma {:induction false} SplitCount(s: string, sep: char)
    ensures |Split(s, sep)| == multiset(s)[sep] + 1
    decreases |s|
  {
    if s != [] {
      assert s == [s[0]] + s[1..];
      SplitCount(s[1..], sep);
    }
  }

  lemma SplitCons(a: string, rest: string)
    requires ':' !in a
    ensures Split(a + [':'] + rest, ':') == [a] + Split(rest, ':')
  {
    var r := [':'] + rest;
    assert r[1..] == rest;
    SplitPrefix(a, r, ':');
    assert a + [':'] + rest == a + r && a + [] == a;
  }

  /** A cut string splits into the cut's fields, then whatever more holds. */
  lemma CutSplit(s: string, a: string, b: string, t: string, more: string)
    requires Cut(s, a, b, t, more)
    ensures var f := Split(s, ':'); |f| >= 3 && f[0] == a && f[1] == b && f[2] == t
  {
    assert s == a + [':'] + (b + [':'] + t + more);
    SplitCons(a, b + [':'] + t + more);
    assert b + [':'] + t + more == b + [':'] + (t + more);
    SplitCons(b, t + more);
    SplitPrefix(t, more, ':');
    if more != [] {
      assert more == [more[0]] + more[1..];
    }
    assert t + Split(more, ':')[0] == t;
  }

  /** A string with at least two ':' is cut by the first three fields of its split. */
  lemma SplitCut(s: string) returns (more: string)
    requires |Split(s, ':')| >= 3
    ensures var f := Split(s, ':'); Cut(s, f[0], f[1], f[2], more)
  {
    var f := Split(s, ':');
    SplitJoin(s, ':');
    assert f[1..][1..] == f[2..];
    assert f[2..][0] == f[2];
    if |f| == 3 {
      more := [];
      assert Join(f[2..], ':') == f[2];
    } else {
      more := [':'] + Join(f[3..], ':');
      assert f[2..][1..] == f[3..];
      assert Join(f[2..], ':') == f[2] + more;
    }
    assert Join(f, ':') == f[0] + [':'] + (f[1] + [':'] + Join(f[2..], ':'));
  }

  /**
   * Which lines fail or are skipped: an empty line raises IndexError; a line whose first
   * character is a newline, a space or '/' is skipped; any other line raises IndexError when its
   * text without trailing newlines has fewer than two ':', and ValueError when its third field
   * is not an integer.
   */
  lemma ParseLineShape(x: string)
    ensures ParseLine(x) == Bad(EmptyLine) <==> x == []
    ensures ParseLine(x) == Skip <==> |x| > 0 && IsSkipMarker(x[0])
    ensures ParseLine(x) == Bad(MissingField) <==>
              |x| > 0 && !IsSkipMarker(x[0]) && multiset(RStripNewlines(x))[':'] < 2
    ensures ParseLine(x) == Bad(BadWeight) <==>
              |x| > 0 && !IsSkipMarker(x[0])
              && exists a, b, t, more :: Cut(RStripNewlines(x), a, b, t, more) && ParseInt(t) == None
  {
    var s := RStripNewlines(x);
    SplitCount(s, ':');
    if |x| > 0 && !IsSkipMarker(x[0]) {
      var f := Split(s, ':');
      if |f| >= 3 {
        var more := SplitCut(s);
        if ParseInt(f[2]) == None {
          assert Cut(s, f[0], f[1], f[2], more);
        }
      }
      if exists a, b, t, more :: Cut(s, a, b, t, more) && ParseInt(t) == None {
        var a, b, t, more :| Cut(s, a, b, t, more) && ParseInt(t) == None;
        CutSplit(s, a, b, t, more);
      }
    }
  }

  /**
   * Which lines give an edge, and which: a line not skipped gives (a, b, w) exactly when its
   * text without trailing newlines reads a:b:t, possibly followed by more ':'-separated fields,
   * with int(t) == w. So " 7", "007" and "+7" are weights, extra fields are ignored, and the
   * last line may lack its newline.
   */
  lemma ParseLineEdge(x: string, a: string, b: string, w: int)
    ensures ParseLine(x) == Edge(Relationship(a, b, w)) <==>
              |x| > 0 && !IsSkipMarker(x[0])
              && exists t, more :: Cut(RStripNewlines(x), a, b, t, more) && ParseInt(t) == Some(w)
  {
    var s := RStripNewlines(x);
    if ParseLine(x) == Edge(Relationship(a, b, w)) {
      var f := Split(s, ':');
      var more := SplitCut(s);
      assert Cut(s, a, b, f[2], more) && ParseInt(f[2]) == Some(w);
    }
    if |x| > 0 && !IsSkipMarker(x[0]) && exists t, more :: Cut(s, a, b, t, more) && ParseInt(t) == Some(w) {
      var t, more :| Cut(s, a, b, t, more) && ParseInt(t) == Some(w);
      CutSplit(s, a, b, t, more);
    }
  }

  /** What each line contributes, line by line. */
  function Classify(lines: seq<string>): (rs: seq<LineResult>)
    ensures |rs| == |lines|
    decreases |lines|
  {
    if lines == [] then [] else [ParseLine(lines[0])] + Classify(lines[1..])
  }

  lemma {:induction false} ClassifyAt(lines: seq<string>, i: nat)
    requires i < |lines|
    ensures Classify(lines)[i] == ParseLine(lines[i])
    decreases i
  {
    if i > 0 {
      ClassifyAt(lines[1..], i - 1);
    }
  }

  /** The result of the loop from line i on, given what each line contributes and the edges collected so far. */
  function ParseFrom(rs: seq<LineResult>, i: nat, edges: seq<Relationship>): Result<seq<Relationship>, ParseError>
    requires i <= |rs|
    decreases |rs| - i
  {
    if i == |rs| then Success(edges)
    else
      match rs[i]
      case Skip => ParseFrom(rs, i + 1, edges)
      case Edge(rel) => ParseFrom(rs, i + 1, edges + [rel])
      case Bad(kind) => Failure(ParseError(i, kind))
  }

  /** The result of generateRelationships on the lines of the file. */
  function ParseRelationships(lines: seq<string>): Result<seq<Relationship>, ParseError> {
    ParseFrom(Classify(lines), 0, [])
  }

  /**
   * The body of the loop of generateRelationships on line x, statement by statement. ParseLine
   * is its specification (the value each line contributes, used by ParseFrom); ParseLineShape
   * and ParseLineEdge say what that value is.
   */
  method ReadLine(x: string) returns (res: LineResult)
    ensures res == ParseLine(x)
  {
    if |x| == 0 {
      return Bad(EmptyLine);
    }
    if x[0] == '\n' || x[0] == ' ' || x[0] == '/' {
      return Skip;
    }
    var node := Split(RStripNewlines(x), ':');
    if |node| < 3 {
      return Bad(MissingField);
    }
    var weight := ParseInt(node[2]);
    if weight.None? {
      return Bad(BadWeight);
    }
    return Edge(Relationship(node[0], node[1], weight.value));
  }

  /** The loop body on line i of the file, stated as that line's contribution. */
  method ReadLineAt(lines: seq<string>, i: nat) returns (res: LineResult)
    requires i < |lines|
    ensures res == Classify(lines)[i]
  {
    res := ReadLine(lines[i]);
    ClassifyAt(lines, i);
  }

  /**
   * generateRelationships on the lines file.readlines() returned: the edges of the lines that
   * are not skipped, in file order, or the error of the first line that cannot be read.
   */
  method GenerateRelationships(lines: seq<string>) returns (r: Result<seq<Relationship>, ParseError>)
    ensures r == ParseRelationships(lines)
  {
    ghost var rs := Classify(lines);
    var edges: seq<Relationship> := [];
    for i := 0 to |lines|
      invariant ParseFrom(rs, i, edges) == ParseRelationships(lines)
    {
      var res := ReadLineAt(lines, i);
      match res
      case Skip =>
      case Bad(kind) =>
        return Failure(ParseError(i, kind));
      case Edge(rel) =>
        edges := edges + [rel];
    }
    return Success(edges);
  }

  /** Reference definition: the edges of the contributions that are edges, in order. */
  function KeptOf(rs: seq<LineResult>): seq<Relationship>
    decreases |rs|
  {
    if rs == [] then [] else (if rs[0].Edge? then [rs[0].rel] else []) + KeptOf(rs[1..])
  }

  /** The edges the lines give, in order. */
  function Kept(lines: seq<string>): seq<Relationship> {
    KeptOf(Classify(lines))
  }

  /** The edges of two blocks are the edges of each, one after the other. */
  lemma {:induction false} KeptOfAppend(a: seq<LineResult>, b: seq<LineResult>)
    ensures KeptOf(a + b) == KeptOf(a) + KeptOf(b)
    decreases |a|
  {
    if a == [] {
      assert a + b == b;
    } else {
      assert (a + b)[0] == a[0] && (a + b)[1..] == a[1..] + b;
      KeptOfAppend(a[1..], b);
    }
  }

  lemma KeptOfUnfold(rs: seq<LineResult>, i: nat)
    requires i < |rs|
    ensures KeptOf(rs[i..]) == (if rs[i].Edge? then [rs[i].rel] else []) + KeptOf(rs[i + 1..])
  {
    assert rs[i..][0] == rs[i] && rs[i..][1..] == rs[i + 1..];
  }

  /** No contribution in [i, j) is an error. */
  predicate NoBad(rs: seq<LineResult>, i: nat, j: nat)
    requires i <= j <= |rs|
  {
    forall k | i <= k < j :: !rs[k].Bad?
  }

  /** The loop from i on fails exactly at the first error, and otherwise appends the remaining edges. */
  lemma {:induction false} ParseFromSpec(rs: seq<LineResult>, i: nat, edges: seq<Relationship>)
    requires i <= |rs|
    ensures ParseFrom(rs, i, edges).Success? <==> NoBad(rs, i, |rs|)
    ensures ParseFrom(rs, i, edges).Success? ==> ParseFrom(rs, i, edges).value == edges + KeptOf(rs[i..])
    ensures ParseFrom(rs, i, edges).Failure? ==>
              var e := ParseFrom(rs, i, edges).error;
              i <= e.line < |rs| && rs[e.line] == Bad(e.kind) && NoBad(rs, i, e.line)
    decreases |rs| - i
  {
    if i < |rs| {
      KeptOfUnfold(rs, i);
      if rs[i].Skip? {
        ParseFromSpec(rs, i + 1, edges);
        assert edges + KeptOf(rs[i..]) == edges + KeptOf(rs[i + 1..]);
      } else if rs[i].Edge? {
        var edges' := edges + [rs[i].rel];
        ParseFromSpec(rs, i + 1, edges');
        assert edges + KeptOf(rs[i..]) == edges' + KeptOf(rs[i + 1..]);
      }
    } else {
      assert rs[i..] == [];
    }
  }

  /**
   * generateRelationships succeeds exactly when no line is empty or malformed; it then returns
   * the edges of the lines not skipped, in order; otherwise it reports the first such line
   * and why it failed.
   */
  lemma ParseRelationshipsSpec(lines: seq<string>)
    ensures ParseRelationships(lines).Success? <==> forall k | 0 <= k < |lines| :: !ParseLine(lines[k]).Bad?
    ensures ParseRelationships(lines).Success? ==> ParseRelationships(lines).value == Kept(lines)
    ensures ParseRelationships(lines).Failure? ==>
              var e := ParseRelationships(lines).error;
              e.line < |lines| && ParseLine(lines[e.line]) == Bad(e.kind)
              && forall k | 0 <= k < e.line :: !ParseLine(lines[k]).Bad?
  {
    var rs := Classify(lines);
    ParseFromSpec(rs, 0, []);
    assert rs[0..] == rs;
    forall k | 0 <= k < |lines| ensures rs[k] == ParseLine(lines[k]) {
      ClassifyAt(lines, k);
    }
  }

  lemma {:induction false} ClassifyAppend(a: seq<string>, b: seq<string>)
    ensures Classify(a + b) == Classify(a) + Classify(b)
    decreases |a|
  {
    if a == [] {
      assert a + b == b;
    } else {
      assert (a + b)[0] == a[0] && (a + b)[1..] == a[1..] + b;
      ClassifyAppend(a[1..], b);
    }
  }

  lemma {:induction false} KeptOfSkipped(rs: seq<LineResult>)
    requires forall k | 0 <= k < |rs| :: rs[k] == Skip
    ensures KeptOf(rs) == []
    decreases |rs|
  {
    if rs != [] {
      KeptOfSkipped(rs[1..]);
    }
  }

  /** Lines that are skipped can be inserted anywhere without changing the edges read. */
  lemma SkippedLinesIgnored(a: seq<string>, skipped: seq<string>, b: seq<string>)
    requires forall k | 0 <= k < |skipped| :: ParseLine(skipped[k]) == Skip
    requires ParseRelationships(a + b).Success?
    ensures ParseRelationships(a + skipped + b) == ParseRelationships(a + b)
  {
    ParseRelationshipsSpec(a + b);
    InsertedReadable(a, skipped, b);
    ParseRelationshipsSpec(a + skipped + b);
    KeptInsertSkipped(a, skipped, b);
  }

  lemma InsertedReadable(a: seq<string>, skipped: seq<string>, b: seq<string>)
    requires forall k | 0 <= k < |skipped| :: ParseLine(skipped[k]) == Skip
    requires forall k | 0 <= k < |a + b| :: !ParseLine((a + b)[k]).Bad?
    ensures forall k | 0 <= k < |a + skipped + b| :: !ParseLine((a + skipped + b)[k]).Bad?
  {
    var s := a + skipped + b;
    forall k | 0 <= k < |s| ensures !ParseLine(s[k]).Bad? {
      if k < |a| {
        assert s[k] == (a + b)[k];
      } else if k >= |a| + |skipped| {
        assert s[k] == (a + b)[k - |skipped|];
      } else {
        assert s[k] == skipped[k - |a|];
      }
    }
  }

  lemma KeptInsertSkipped(a: seq<string>, skipped: seq<string>, b: seq<string>)
    requires forall k | 0 <= k < |skipped| :: ParseLine(skipped[k]) == Skip
    ensures Kept(a + skipped + b) == Kept(a + b)
  {
    ClassifyAppend(a, b);
    ClassifyAppend(a + skipped, b);
    ClassifyAppend(a, skipped);
    var ca, cs, cb := Classify(a), Classify(skipped), Classify(b);
    KeptOfAppend(ca, cb);
    KeptOfAppend(ca + cs, cb);
    KeptOfAppend(ca, cs);
    forall k | 0 <= k < |cs| ensures cs[k] == Skip {
      ClassifyAt(skipped, k);
    }
    KeptOfSkipped(cs);
    assert KeptOf(ca) + [] == KeptOf(ca);
  }

  // ---------------------------------------------------------------------------------------
  // Writing an edge list: the inverse of reading one

  /** The line "a:b:weight\n" for one relationship. */
  function FormatLine(r: Relationship): string {
    r.a + [':'] + r.b + [':'] + IntToString(r.weight) + ['\n']
  }

  /**
   * A relationship that one line can hold: no ':' and no line break in its names (readlines()
   * on a file opened in text mode splits at '\n' and reads '\r' as '\n'), and a first name that
   * does not mark a skipped line.
   */
  predicate Writable(r: Relationship) {
    && ':' !in r.a && ':' !in r.b
    && '\n' !in r.a && '\n' !in r.b && '\r' !in r.a && '\r' !in r.b
    && (|r.a| > 0 ==> !IsSkipMarker(r.a[0]))
  }

  lemma IntToStringShape(n: int)
    ensures |IntToString(n)| > 0 && ':' !in IntToString(n)
    ensures IsDigit(IntToString(n)[|IntToString(n)| - 1])
  {
    var ds := NatToDigits(if n < 0 then -n else n);
    var t := IntToString(n);
    if n < 0 {
      assert t == "-" + ds;
      assert t[|t| - 1] == ds[|ds| - 1];
    }
    forall i | 0 <= i < |t| ensures t[i] != ':' {
      if n < 0 && i > 0 {
        assert t[i] == ds[i - 1];
      }
    }
  }

  /** Reading back a written line gives the relationship it was written from. */
  lemma ParseFormatLine(r: Relationship)
    requires Writable(r)
    ensures ParseLine(FormatLine(r)) == Edge(r)
  {
    var w := IntToString(r.weight);
    IntToStringShape(r.weight);
    var body := r.a + [':'] + r.b + [':'] + w;
    var x := FormatLine(r);
    assert x == body + ['\n'];
    assert x[..|x| - 1] == body;
    assert body[|body| - 1] == w[|w| - 1];
    assert RStripNewlines(x) == body;
    assert x[0] != '\n' && x[0] != ' ' && x[0] != '/' by {
      if |r.a| > 0 {
        assert x[0] == r.a[0];
      } else {
        assert x[0] == ':';
      }
    }
    var fields := [r.a, r.b, w];
    assert Join(fields[2..], ':') == w;
    assert Join(fields[1..], ':') == r.b + [':'] + w;
    assert Join(fields, ':') == body;
    JoinSplit(fields, ':');
    ParseIntString(r.weight, []);
    assert w + [] == w;
  }

  /** The lines of an edge list, one per relationship. */
  function FormatLines(rels: seq<Relationship>): (lines: seq<string>)
    ensures |lines| == |rels|
  {
    seq(|rels|, k requires 0 <= k < |rels| => FormatLine(rels[k]))
  }

  lemma {:induction false} KeptOfEdges(rs: seq<LineResult>, rels: seq<Relationship>)
    requires |rs| == |rels| && forall k | 0 <= k < |rs| :: rs[k] == Edge(rels[k])
    ensures KeptOf(rs) == rels
    decreases |rs|
  {
    if rs != [] {
      KeptOfEdges(rs[1..], rels[1..]);
      assert [rels[0]] + rels[1..] == rels;
    }
  }

  /**
   * Reading a written edge list gives back exactly the relationships written, in order; every
   * written line is one line of the file, since no name holds a line break.
   */
  lemma ParseFormatLines(rels: seq<Relationship>)
    requires forall i | 0 <= i < |rels| :: Writable(rels[i])
    ensures ParseRelationships(FormatLines(rels)) == Success(rels)
  {
    var lines := FormatLines(rels);
    forall k | 0 <= k < |rels| ensures ParseLine(lines[k]) == Edge(rels[k]) && Classify(lines)[k] == Edge(rels[k]) {
      ParseFormatLine(rels[k]);
      ClassifyAt(lines, k);
    }
    KeptOfEdges(Classify(lines), rels);
    ParseRelationshipsSpec(lines);
  }
}
