/** The page template of html_template.hpp: the constructor cuts the
    template text into components at every unescaped '%', and render puts
    the parameters between them.

    The file is replaced by the sequence of its lines (what getline
    returns, without the line break). The escape machine is specified by
    Feed (one character), FeedLine (one line, folded from the back) and
    FeedLines (all lines); the class HtmlTemplate runs the same loops on
    its field components and is proved to agree with them. */
module HtmlTemplate {
  import opened Common

  const CRLF: String := "\r\n"

  // ---------------------------------------------------------------------
  // The escape machine (html_template.hpp:20-53)
  // ---------------------------------------------------------------------

  /** The state of the scan: the finished components, the last one (the
      one components.back() names) and first_slash. */
  datatype Scan = Scan(done: seq<String>, cur: String, slash: bool)

  function Parts(st: Scan): (cs: seq<String>)
    ensures |cs| == |st.done| + 1 && cs[|cs| - 1] == st.cur
  {
    st.done + [st.cur]
  }

  /** The state the scan resumes from on a vector of components. */
  function Resume(cs: seq<String>): (st: Scan)
    requires |cs| > 0
    ensures Parts(st) == cs && !st.slash
  {
    Scan(cs[..|cs| - 1], cs[|cs| - 1], false)
  }

  /** One character (lines 28-49); None where the process exits on an
      unsupported escape. */
  function Feed(st: Scan, c: char): Option<Scan>
  {
    if st.slash then
      if c == '\\' || c == '%' then Some(Scan(st.done, st.cur + [c], false))
      else None
    else if c == '\\' then Some(st.(slash := true))
    else if c == '%' then Some(Scan(st.done + [st.cur], "", false))
    else Some(st.(cur := st.cur + [c]))
  }

  /** The characters of one line, in order. */
  function FeedLine(st: Scan, s: String): Option<Scan>
    decreases |s|
  {
    if |s| == 0 then Some(st)
    else
      match FeedLine(st, s[..|s| - 1])
      case None => None
      case Some(st1) => Feed(st1, s[|s| - 1])
  }

  /** The start of every line (lines 25-26): a line break is appended to
      the last component and first_slash is cleared. */
  function NewLine(st: Scan): Scan
  {
    Scan(st.done, st.cur + CRLF, false)
  }

  /** The getline loop (lines 24-51). */
  function FeedLines(st: Scan, lines: seq<String>): Option<Scan>
    decreases |lines|
  {
    if |lines| == 0 then Some(st)
    else
      match FeedLines(st, lines[..|lines| - 1])
      case None => None
      case Some(st1) => FeedLine(NewLine(st1), lines[|lines| - 1])
  }

  /** The components the constructor builds from the lines of a template
      (starting from the single empty component of line 23); None where it
      exits. */
  function Components(lines: seq<String>): Option<seq<String>>
  {
    match FeedLines(Scan([], "", false), lines)
    case None => None
    case Some(st) => Some(Parts(st))
  }

  // ---------------------------------------------------------------------
  // What the escapes mean, stated without the machine
  // ---------------------------------------------------------------------

  /** The text ends in an odd run of backslashes, so the next character is
      escaped. */
  predicate OddRun(s: String)
    decreases |s|
  {
    |s| > 0 && s[|s| - 1] == '\\' && !OddRun(s[..|s| - 1])
  }

  /** The number of '%' that are not escaped. */
  function Percents(s: String): nat
    decreases |s|
  {
    if |s| == 0 then 0
    else Percents(s[..|s| - 1]) + (if s[|s| - 1] == '%' && !OddRun(s[..|s| - 1]) then 1 else 0)
  }

  function TotalPercents(lines: seq<String>): nat
    decreases |lines|
  {
    if |lines| == 0 then 0 else TotalPercents(lines[..|lines| - 1]) + Percents(lines[|lines| - 1])
  }

  /** Some escaped character is neither '\' nor '%'. */
  predicate BadEscape(s: String)
  {
    exists i :: 0 <= i < |s| && OddRun(s[..i]) && s[i] != '\\' && s[i] != '%'
  }

  /** The escaped form of a text: '\' becomes "\\" and '%' becomes "\%". */
  function Escape(t: String): (e: String)
    ensures |e| >= |t|
    decreases |t|
  {
    if |t| == 0 then ""
    else
      var c := t[|t| - 1];
      Escape(t[..|t| - 1]) + (if c == '\\' || c == '%' then ['\\', c] else [c])
  }

  /** A one-line template: the escaped pieces separated by '%'. */
  function Blank(cs: seq<String>): String
    requires |cs| > 0
    decreases |cs|
  {
    if |cs| == 1 then Escape(cs[0])
    else Blank(cs[..|cs| - 1]) + "%" + Escape(cs[|cs| - 1])
  }

  // ---------------------------------------------------------------------
  // Properties of the escape machine
  // ---------------------------------------------------------------------

  /** Scanning a line from a cleared flag: it fails exactly on a bad
      escape; otherwise the flag ends up set exactly after an odd run of
      backslashes, and one component is started per unescaped '%'. */
  lemma {:induction false} LineScan(st: Scan, s: String)
    requires !st.slash
    ensures FeedLine(st, s).None? <==> BadEscape(s)
    ensures FeedLine(st, s).Some? ==>
              FeedLine(st, s).value.slash == OddRun(s) &&
              |FeedLine(st, s).value.done| == |st.done| + Percents(s)
    decreases |s|
  {
    if |s| > 0 {
      var p := s[..|s| - 1];
      var c := s[|s| - 1];
      LineScan(st, p);
      assert forall i :: 0 <= i < |p| ==> s[..i] == p[..i];
      assert s[..|p|] == p;
      if BadEscape(p) {
        var i :| 0 <= i < |p| && OddRun(p[..i]) && p[i] != '\\' && p[i] != '%';
        assert OddRun(s[..i]) && s[i] == p[i];
      }
      if BadEscape(s) && !BadEscape(p) {
        var i :| 0 <= i < |s| && OddRun(s[..i]) && s[i] != '\\' && s[i] != '%';
        assert i == |p|;
      }
    }
  }

  lemma {:induction false} LinesScan(st: Scan, lines: seq<String>)
    ensures FeedLines(st, lines).None? <==> exists k :: 0 <= k < |lines| && BadEscape(lines[k])
    ensures FeedLines(st, lines).Some? ==> |FeedLines(st, lines).value.done| == |st.done| + TotalPercents(lines)
    decreases |lines|
  {
    if |lines| > 0 {
      var init := lines[..|lines| - 1];
      var last := lines[|lines| - 1];
      LinesScan(st, init);
      if FeedLines(st, init).Some? {
        LineScan(NewLine(FeedLines(st, init).value), last);
      }
      if exists k :: 0 <= k < |init| && BadEscape(init[k]) {
        var k :| 0 <= k < |init| && BadEscape(init[k]);
        assert lines[k] == init[k];
      }
      if exists k :: 0 <= k < |lines| && BadEscape(lines[k]) {
        var k :| 0 <= k < |lines| && BadEscape(lines[k]);
        if k < |init| {
          assert init[k] == lines[k];
        }
      }
    }
  }

  /** The constructor exits exactly when some line holds an escape other
      than "\\" and "\%"; otherwise it builds one component more than there
      are unescaped '%'. */
  lemma ComponentCount(lines: seq<String>)
    ensures Components(lines).None? <==> exists k :: 0 <= k < |lines| && BadEscape(lines[k])
    ensures Components(lines).Some? ==> |Components(lines).value| == 1 + TotalPercents(lines)
  {
    LinesScan(Scan([], "", false), lines);
  }

  /** Scanning a line in two parts is scanning it at once. */
  lemma {:induction false} FeedLineAppend(st: Scan, a: String, b: String)
    ensures FeedLine(st, a + b) ==
              match FeedLine(st, a)
              case None => None
              case Some(st1) => FeedLine(st1, b)
    decreases |b|
  {
    if |b| == 0 {
      assert a + b == a;
    } else {
      assert (a + b)[..|a + b| - 1] == a + b[..|b| - 1];
      FeedLineAppend(st, a, b[..|b| - 1]);
    }
  }

  /** An escaped text is copied into the current component unchanged: "\\"
      gives one backslash and "\%" a literal '%'. */
  lemma {:induction false} EscapedCopied(st: Scan, t: String)
    requires !st.slash
    ensures FeedLine(st, Escape(t)) == Some(st.(cur := st.cur + t))
    decreases |t|
  {
    if |t| > 0 {
      var p := t[..|t| - 1];
      var c := t[|t| - 1];
      EscapedCopied(st, p);
      var st1 := st.(cur := st.cur + p);
      var st2 := st.(cur := st.cur + t);
      assert st.cur + t == st1.cur + [c];
      if c == '\\' || c == '%' {
        var tail: String := ['\\', c];
        assert Escape(t) == Escape(p) + tail;
        FeedLineAppend(st, Escape(p), tail);
        assert tail[..1] == ['\\'] && tail[..1][..0] == [];
        assert FeedLine(st1, tail[..1]) == Some(st1.(slash := true));
        assert FeedLine(st1, tail) == Some(st2);
      } else {
        var tail: String := [c];
        assert Escape(t) == Escape(p) + tail;
        FeedLineAppend(st, Escape(p), tail);
        assert tail[..0] == [];
        assert FeedLine(st1, tail) == Some(st2);
      }
    } else {
      assert st.cur + t == st.cur;
    }
  }

  /** Escaping the pieces and joining them with '%' gives a line that scans
      back into those pieces. */
  lemma {:induction false} BlankScans(st: Scan, cs: seq<String>)
    requires !st.slash && |cs| > 0
    ensures FeedLine(st, Blank(cs)).Some?
    ensures !FeedLine(st, Blank(cs)).value.slash
    ensures Parts(FeedLine(st, Blank(cs)).value) == st.done + [st.cur + cs[0]] + cs[1..]
    decreases |cs|
  {
    if |cs| == 1 {
      EscapedCopied(st, cs[0]);
    } else {
      var init := cs[..|cs| - 1];
      var last := cs[|cs| - 1];
      BlankScans(st, init);
      var st1 := FeedLine(st, Blank(init)).value;
      assert Blank(cs) == (Blank(init) + "%") + Escape(last);
      FeedLineAppend(st, Blank(init) + "%", Escape(last));
      FeedLineAppend(st, Blank(init), "%");
      var st2 := Scan(st1.done + [st1.cur], "", false);
      assert FeedLine(st1, "%") == Some(st2) by {
        assert "%"[..0] == [];
      }
      EscapedCopied(st2, last);
      assert st2.cur + last == last;
      assert FeedLine(st, Blank(cs)) == Some(st2.(cur := last));
      assert Parts(st2.(cur := last)) == Parts(st1) + [last];
      assert cs[1..] == init[1..] + [last];
      AppendAssoc(st.done + [st.cur + cs[0]], init[1..], [last]);
    }
  }

  lemma AppendAssoc(a: seq<String>, b: seq<String>, c: seq<String>)
    ensures (a + b) + c == a + (b + c)
  {
  }

  /** A one-line template is that line scanned after its line break. */
  lemma OneLine(line: String)
    ensures FeedLines(Scan([], "", false), [line]) == FeedLine(Scan([], CRLF, false), line)
  {
    assert [line][..0] == [];
    assert "" + CRLF == CRLF;
  }

  /** A template written as one line of escaped pieces separated by '%'
      loads as exactly those pieces, the first one after the line break. */
  lemma LoadBlank(cs: seq<String>)
    requires |cs| > 0
    ensures Components([Blank(cs)]) == Some([CRLF + cs[0]] + cs[1..])
  {
    var st1 := Scan([], CRLF, false);
    var line := Blank(cs);
    OneLine(line);
    BlankScans(st1, cs);
    var x := FeedLine(st1, line).value;
    assert Components([line]) == Some(Parts(x));
    assert [] + [CRLF + cs[0]] == [CRLF + cs[0]];
  }

  /** Two states that differ only in first_slash continue alike once a
      line starts: the flag is cleared at every line. */
  lemma {:induction false} FlagForgotten(x: Scan, y: Scan, rest: seq<String>)
    requires x.done == y.done && x.cur == y.cur && |rest| > 0
    ensures FeedLines(x, rest) == FeedLines(y, rest)
    decreases |rest|
  {
    if |rest| > 1 {
      FlagForgotten(x, y, rest[..|rest| - 1]);
    } else {
      assert NewLine(x) == NewLine(y);
    }
  }

  /** Scanning the lines in two groups is scanning them at once. */
  lemma {:induction false} FeedLinesAppend(st: Scan, a: seq<String>, b: seq<String>)
    ensures FeedLines(st, a + b) ==
              match FeedLines(st, a)
              case None => None
              case Some(st1) => FeedLines(st1, b)
    decreases |b|
  {
    if |b| == 0 {
      assert a + b == a;
    } else {
      assert (a + b)[..|a + b| - 1] == a + b[..|b| - 1];
      FeedLinesAppend(st, a, b[..|b| - 1]);
    }
  }

  /** A lone '\' at the end of a line is dropped: the flag it sets is
      cleared by the next line, and nothing is added for it. */
  lemma TrailingBackslashDropped(before: seq<String>, s: String, after: seq<String>)
    requires !OddRun(s)
    ensures Components(before + [s + "\\"] + after) == Components(before + [s] + after)
  {
    var st0 := Scan([], "", false);
    FeedLinesAppend(st0, before + [s + "\\"], after);
    FeedLinesAppend(st0, before + [s], after);
    assert (before + [s + "\\"])[..|before|] == before;
    assert (before + [s])[..|before|] == before;
    match FeedLines(st0, before)
    case None =>
    case Some(st1) =>
      var line := NewLine(st1);
      FeedLineAppend(line, s, "\\");
      assert "\\"[..0] == [];
      if FeedLine(line, s).Some? {
        LineScan(line, s);
        var x := FeedLine(line, s).value;
        assert FeedLine(line, s + "\\") == Some(x.(slash := true));
        if |after| > 0 {
          FlagForgotten(x.(slash := true), x, after);
        }
      }
  }

  // ---------------------------------------------------------------------
  // render (html_template.hpp:55-64)
  // ---------------------------------------------------------------------

  /** The first i components, each followed by its parameter. */
  function Filled(cs: seq<String>, ps: seq<String>, i: nat): String
    requires i <= |cs| && i <= |ps|
    decreases i
  {
    if i == 0 then "" else Filled(cs, ps, i - 1) + cs[i - 1] + ps[i - 1]
  }

  /** c0 + p0 + c1 + ... + p(n-2) + c(n-1). */
  function Rendered(cs: seq<String>, ps: seq<String>): String
    requires |ps| + 1 >= |cs|
  {
    if |cs| == 0 then "" else Filled(cs, ps, |cs| - 1) + cs[|cs| - 1]
  }

  /** The text rendered so far only grows: the first i components and
      parameters start the first j. */
  lemma {:induction false} FilledGrows(cs: seq<String>, ps: seq<String>, i: nat, j: nat)
    requires i <= j <= |cs| && j <= |ps|
    ensures |Filled(cs, ps, i)| <= |Filled(cs, ps, j)|
    ensures Filled(cs, ps, j)[..|Filled(cs, ps, i)|] == Filled(cs, ps, i)
    decreases j
  {
    if j > i {
      FilledGrows(cs, ps, i, j - 1);
      var a := Filled(cs, ps, j - 1);
      assert Filled(cs, ps, j) == a + (cs[j - 1] + ps[j - 1]);
      assert (a + (cs[j - 1] + ps[j - 1]))[..|a|] == a;
    }
  }

  /** The rendered page begins with the first j components, each
      followed by its parameter. */
  lemma RenderedStarts(cs: seq<String>, ps: seq<String>, j: nat)
    requires |ps| + 1 >= |cs| && j < |cs|
    ensures |Filled(cs, ps, j)| <= |Rendered(cs, ps)|
    ensures Rendered(cs, ps)[..|Filled(cs, ps, j)|] == Filled(cs, ps, j)
  {
    var n := |cs|;
    var g := Filled(cs, ps, n - 1);
    FilledGrows(cs, ps, j, n - 1);
    assert (g + cs[n - 1])[..|g|] == g;
    SliceOfPrefix(g, g + cs[n - 1], 0, |Filled(cs, ps, j)|);
  }

  /** Parameter i stands right after component i, where the i-th unescaped
      '%' of the template stood. */
  lemma ParameterPlaced(cs: seq<String>, ps: seq<String>, i: nat)
    requires |ps| + 1 >= |cs| && i + 1 < |cs|
    ensures var head := Filled(cs, ps, i) + cs[i] + ps[i];
            |head| <= |Rendered(cs, ps)| && Rendered(cs, ps)[..|head|] == head
  {
    RenderedStarts(cs, ps, i + 1);
    assert Filled(cs, ps, i + 1) == Filled(cs, ps, i) + cs[i] + ps[i];
  }

  lemma SliceOfPrefix(x: String, y: String, lo: nat, hi: nat)
    requires |x| <= |y| && y[..|x|] == x && lo <= hi <= |x|
    ensures y[lo..hi] == x[lo..hi]
  {
    assert forall k :: lo <= k < hi ==> y[k] == y[..|x|][k];
  }

  lemma {:induction false} FilledPrefix(cs: seq<String>, ps: seq<String>, m: nat, i: nat)
    requires i <= m <= |ps| && i <= |cs|
    ensures Filled(cs, ps, i) == Filled(cs, ps[..m], i)
    decreases i
  {
    if i > 0 {
      FilledPrefix(cs, ps, m, i - 1);
    }
  }

  /** Parameters past the (n-1)-th are never used. */
  lemma ExtraParametersIgnored(cs: seq<String>, ps: seq<String>)
    requires |ps| + 1 >= |cs| && |cs| > 0
    ensures Rendered(cs, ps) == Rendered(cs, ps[..|cs| - 1])
  {
    FilledPrefix(cs, ps, |cs| - 1, |cs| - 1);
  }

  // ---------------------------------------------------------------------
  // The class (html_template.hpp:16-66)
  // ---------------------------------------------------------------------

  class HtmlTemplate {
    var components: seq<String>

    /** The member initialiser and push_back("") of lines 20-23. */
    constructor ()
      ensures components == [""]
    {
      components := [""];
    }

    /** The getline loop of the constructor (lines 24-51) on the lines of
        the file; ok is false where the process exits. */
    method ReadLines(lines: seq<String>) returns (ok: bool)
      requires |components| > 0
      modifies this
      ensures ok == FeedLines(Resume(old(components)), lines).Some?
      ensures ok ==> components == Parts(FeedLines(Resume(old(components)), lines).value)
    {
      ghost var st0 := Resume(components);
      ghost var st := st0;
      var i := 0;
      while i < |lines|
        invariant 0 <= i <= |lines|
        invariant FeedLines(st0, lines[..i]) == Some(st)
        invariant components == Parts(st)
      {
        var s := lines[i];
        assert lines[..i + 1][..i] == lines[..i];
        components := components[..|components| - 1] + [components[|components| - 1] + CRLF];
        st := NewLine(st);
        ghost var line := st;
        var firstSlash := false;
        var j := 0;
        while j < |s|
          invariant 0 <= j <= |s|
          invariant FeedLine(line, s[..j]) == Some(st)
          invariant components == Parts(st) && firstSlash == st.slash
        {
          var c := s[j];
          var n := |components|;
          assert s[..j + 1][..j] == s[..j];
          if firstSlash {
            if c == '\\' {
              components := components[..n - 1] + [components[n - 1] + ['\\']];
            } else if c == '%' {
              components := components[..n - 1] + [components[n - 1] + ['%']];
            } else {
              // exit(-1)
              LinePrefixFails(line, s, j + 1);
              LinesPrefixFails(st0, lines, i + 1);
              return false;
            }
            firstSlash := false;
          } else if c == '\\' {
            firstSlash := true;
          } else if c == '%' {
            components := components + [""];
          } else {
            components := components[..n - 1] + [components[n - 1] + [c]];
          }
          st := Feed(st, c).value;
          j := j + 1;
        }
        assert s[..j] == s;
        i := i + 1;
      }
      assert lines[..i] == lines;
      ok := true;
    }

    /** render (lines 55-64); the index params[i] needs at least n-1
        parameters. */
    method Render(params: seq<String>) returns (res: String)
      requires |params| + 1 >= |components|
      ensures res == Rendered(components, params)
    {
      res := "";
      var i := 0;
      while i < |components|
        invariant 0 <= i <= |components|
        invariant i < |components| ==> res == Filled(components, params, i)
        invariant i == |components| ==> res == Rendered(components, params)
      {
        res := res + components[i];
        if i + 1 < |components| {
          res := res + params[i];
        }
        i := i + 1;
      }
    }
  }

  /** A line scan that fails on a prefix fails on the whole line. */
  lemma {:induction false} LinePrefixFails(st: Scan, s: String, k: nat)
    requires k <= |s| && FeedLine(st, s[..k]).None?
    ensures FeedLine(st, s).None?
    decreases |s| - k
  {
    if k < |s| {
      assert s[..k + 1][..k] == s[..k];
      LinePrefixFails(st, s, k + 1);
    } else {
      assert s[..k] == s;
    }
  }

  /** A scan that fails on some lines fails on the whole template. */
  lemma {:induction false} LinesPrefixFails(st: Scan, lines: seq<String>, k: nat)
    requires k <= |lines| && FeedLines(st, lines[..k]).None?
    ensures FeedLines(st, lines).None?
    decreases |lines| - k
  {
    if k < |lines| {
      assert lines[..k + 1][..k] == lines[..k];
      LinesPrefixFails(st, lines, k + 1);
    } else {
      assert lines[..k] == lines;
    }
  }

  /** html_template(path) on the lines of the file at path: null where the
      process exits. */
  method Load(lines: seq<String>) returns (t: HtmlTemplate?)
    ensures t == null <==> Components(lines).None?
    ensures t != null ==> fresh(t) && t.components == Components(lines).value
  {
    t := new HtmlTemplate();
    assert Resume(t.components) == Scan([], "", false);
    var ok := t.ReadLines(lines);
    if !ok {
      t := null;
    }
  }
}
