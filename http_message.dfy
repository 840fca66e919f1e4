/** The text model of an HTTP message (http_message.hpp): the exact-match
    splitter every parser in the server is built on, the request parser, and
    the response serialiser. */
module HttpMessage {
  import opened Common

  const CRLF: String := "\r\n"

  // ---------------------------------------------------------------------
  // split (http_message.hpp:19-52)
  // ---------------------------------------------------------------------

  /** The test split makes at the front of the unread text `s`. When fewer
      than |sep| characters are left the comparison is skipped and `good`
      keeps its initial value true, so the position counts as a separator. */
  predicate SeparatorAt(s: String, sep: String)
  {
    |s| < |sep| || s[..|sep|] == sep
  }

  /** Separators split may still consume: None when no limit was given (the
      default (size_t)-1 is never reached), Some(n) otherwise. */
  function Consume(k: Option<nat>): Option<nat>
    requires k != Some(0)
  {
    match k
    case None => None
    case Some(n) => Some(n - 1)
  }

  /** The pieces split holds when it reaches the end of `s`, before the final
      pop. The first piece is the one being built; once no separator may be
      consumed any more, the rest of the text is copied verbatim. */
  function Scan(s: String, sep: String, k: Option<nat>): (r: seq<String>)
    requires |sep| > 0
    ensures |r| >= 1
    decreases |s|
  {
    if |s| == 0 then [""]
    else if k == Some(0) then [s]
    else if SeparatorAt(s, sep) then [""] + Scan(s[Min(|sep|, |s|)..], sep, Consume(k))
    else
      var t := Scan(s[1..], sep, k);
      [[s[0]] + t[0]] + t[1..]
  }

  /** Only one trailing empty piece is popped. */
  function Pieces(raw: seq<String>): seq<String>
    requires |raw| >= 1
  {
    if raw[|raw| - 1] == "" then raw[..|raw| - 1] else raw
  }

  /** What split(s, sep, limit) returns. */
  function SplitSpec(s: String, sep: String, limit: Option<nat>): seq<String>
    requires |sep| > 0
  {
    Pieces(Scan(s, sep, limit))
  }

  /** Separators still allowed once `pieces` pieces exist. */
  function Left(limit: Option<nat>, pieces: nat): Option<nat>
    requires pieces >= 1
    requires limit.Some? ==> pieces <= limit.value + 1
  {
    match limit
    case None => None
    case Some(l) => Some(l + 1 - pieces)
  }

  /** The pieces built so far followed by the pieces the rest of the text
      will produce, the first of which continues the current piece. */
  function Glue(ans: seq<String>, rest: seq<String>): seq<String>
    requires |ans| >= 1 && |rest| >= 1
  {
    ans[..|ans| - 1] + [ans[|ans| - 1] + rest[0]] + rest[1..]
  }

  /** The character-by-character comparison of split's inner loop. */
  method MatchAt(s: String, i: nat, sep: String) returns (good: bool)
    requires i < |s|
    ensures good == SeparatorAt(s[i..], sep)
  {
    good := true;
    if i + |sep| <= |s| {
      var j := 0;
      while j < |sep|
        invariant 0 <= j <= |sep|
        invariant forall t :: 0 <= t < j ==> s[i + t] == sep[t]
      {
        if s[i + j] != sep[j] {
          good := false;
          assert s[i..][..|sep|][j] != sep[j];
          break;
        }
        j := j + 1;
      }
      if good {
        assert forall t :: 0 <= t < |sep| ==> s[i..][..|sep|][t] == sep[t];
        assert s[i..][..|sep|] == sep;
      }
    }
  }

  lemma GlueStart(r: seq<String>)
    requires |r| >= 1
    ensures Glue([""], r) == r
  {
    assert "" + r[0] == r[0];
    assert [r[0]] + r[1..] == r;
  }

  /** Appending a character to the current piece. */
  lemma GlueChar(ans: seq<String>, c: char, t: seq<String>)
    requires |ans| >= 1 && |t| >= 1
    ensures Glue(ans[..|ans| - 1] + [ans[|ans| - 1] + [c]], t) == Glue(ans, [[c] + t[0]] + t[1..])
  {
    var ans' := ans[..|ans| - 1] + [ans[|ans| - 1] + [c]];
    assert ans'[..|ans'| - 1] == ans[..|ans| - 1];
    assert ([[c] + t[0]] + t[1..])[1..] == t[1..];
    assert (ans[|ans| - 1] + [c]) + t[0] == ans[|ans| - 1] + ([c] + t[0]);
  }

  /** Starting a new piece. */
  lemma GlueSeparator(ans: seq<String>, t: seq<String>)
    requires |ans| >= 1 && |t| >= 1
    ensures Glue(ans + [""], t) == Glue(ans, [""] + t)
  {
    assert (ans + [""])[..|ans|] == ans;
    assert ([""] + t)[1..] == t;
    assert "" + t[0] == t[0];
    assert ans[|ans| - 1] + "" == ans[|ans| - 1];
    assert ans[..|ans| - 1] + [ans[|ans| - 1]] == ans;
    assert [t[0]] + t[1..] == t;
  }

  /** One step of the scan at position i of `s`: either the character is
      kept in the current piece, or a separator closes it. */
  lemma ScanStep(s: String, i: nat, sep: String, k: Option<nat>)
    requires |sep| > 0 && i < |s|
    ensures k == Some(0) || !SeparatorAt(s[i..], sep) ==>
              var t := Scan(s[i + 1..], sep, k);
              Scan(s[i..], sep, k) == [[s[i]] + t[0]] + t[1..]
    ensures k != Some(0) && SeparatorAt(s[i..], sep) ==>
              Scan(s[i..], sep, k) == [""] + Scan(s[Min(i + |sep|, |s|)..], sep, Consume(k))
  {
    var rest := s[i..];
    assert rest[1..] == s[i + 1..];
    if k == Some(0) {
      assert rest == [s[i]] + s[i + 1..];
    } else if SeparatorAt(rest, sep) {
      assert rest[Min(|sep|, |rest|)..] == s[Min(i + |sep|, |s|)..];
    }
  }

  /** Once the text is used up, the glue is the pieces themselves. */
  lemma GlueEnd(ans: seq<String>)
    requires |ans| >= 1
    ensures Glue(ans, [""]) == ans
  {
    assert ans[|ans| - 1] + "" == ans[|ans| - 1];
    assert ans[..|ans| - 1] + [ans[|ans| - 1]] == ans;
  }

  /** The loop invariant of split: `ans` holds the pieces built from the
      first i characters, and continuing the scan from i with the separators
      still allowed gives the whole scan. */
  ghost predicate SplitInvariant(s: String, sep: String, limit: Option<nat>, ans: seq<String>, i: int)
    requires |sep| > 0
  {
    0 <= i && |ans| >= 1 && (limit.Some? ==> |ans| <= limit.value + 1) &&
    Glue(ans, Scan(s[Min(i, |s|)..], sep, Left(limit, |ans|))) == Scan(s, sep, limit)
  }

  lemma SplitInvariantStart(s: String, sep: String, limit: Option<nat>)
    requires |sep| > 0
    ensures SplitInvariant(s, sep, limit, [""], 0)
  {
    assert s[Min(0, |s|)..] == s;
    GlueStart(Scan(s, sep, limit));
  }

  /** The invariant survives a matched separator. */
  lemma SplitInvariantSeparator(s: String, i: nat, sep: String, limit: Option<nat>, ans: seq<String>)
    requires |sep| > 0 && i < |s|
    requires SplitInvariant(s, sep, limit, ans, i)
    requires !(limit.Some? && |ans| > limit.value)
    requires SeparatorAt(s[i..], sep)
    ensures SplitInvariant(s, sep, limit, ans + [""], i + |sep|)
  {
    var k := Left(limit, |ans|);
    assert Min(i, |s|) == i;
    ScanStep(s, i, sep, k);
    assert Left(limit, |ans| + 1) == Consume(k);
    GlueSeparator(ans, Scan(s[Min(i + |sep|, |s|)..], sep, Consume(k)));
  }

  /** The invariant survives a character kept in the current piece. */
  lemma SplitInvariantChar(s: String, i: nat, sep: String, limit: Option<nat>, ans: seq<String>)
    requires |sep| > 0 && i < |s|
    requires SplitInvariant(s, sep, limit, ans, i)
    requires (limit.Some? && |ans| > limit.value) || !SeparatorAt(s[i..], sep)
    ensures SplitInvariant(s, sep, limit, ans[..|ans| - 1] + [ans[|ans| - 1] + [s[i]]], i + 1)
  {
    var k := Left(limit, |ans|);
    assert Min(i, |s|) == i && Min(i + 1, |s|) == i + 1;
    ScanStep(s, i, sep, k);
    GlueChar(ans, s[i], Scan(s[i + 1..], sep, k));
  }

  /** At the end of the text the pieces built are the whole scan. */
  lemma SplitInvariantEnd(s: String, sep: String, limit: Option<nat>, ans: seq<String>, i: int)
    requires |sep| > 0 && i >= |s|
    requires SplitInvariant(s, sep, limit, ans, i)
    ensures ans == Scan(s, sep, limit)
  {
    assert s[Min(i, |s|)..] == [];
    GlueEnd(ans);
  }

  /** split: builds `ans` with push_back/pop_back and jumps the index past
      each separator it matches. */
  method Split(s: String, sep: String, limit: Option<nat>) returns (ans: seq<String>)
    requires |sep| > 0
    ensures ans == SplitSpec(s, sep, limit)
  {
    ans := [""];
    var i := 0;
    SplitInvariantStart(s, sep, limit);
    while i < |s|
      invariant SplitInvariant(s, sep, limit, ans, i)
      invariant i <= |s| + |sep| - 1
      decreases |s| + |sep| - i
    {
      var good := false;
      if !(limit.Some? && |ans| > limit.value) {
        good := MatchAt(s, i, sep);
      }
      if good {
        SplitInvariantSeparator(s, i, sep, limit, ans);
        ans := ans + [""];
        i := i + |sep|;
      } else {
        SplitInvariantChar(s, i, sep, limit, ans);
        ans := ans[..|ans| - 1] + [ans[|ans| - 1] + [s[i]]];
        i := i + 1;
      }
    }
    SplitInvariantEnd(s, sep, limit, ans, i);
    if ans[|ans| - 1] == "" {
      ans := ans[..|ans| - 1];
    }
  }

  // ---------------------------------------------------------------------
  // What split promises
  // ---------------------------------------------------------------------

  /** The pieces joined back with the separator. */
  function Join(pieces: seq<String>, sep: String): String
  {
    if |pieces| == 0 then ""
    else if |pieces| == 1 then pieces[0]
    else pieces[0] + sep + Join(pieces[1..], sep)
  }

  predicate StartsWith(s: String, p: String)
  {
    |p| <= |s| && s[..|p|] == p
  }

  /** `sep` occurs nowhere in `p`. */
  predicate Free(p: String, sep: String)
  {
    forall i :: 0 <= i <= |p| ==> !StartsWith(p[i..], sep)
  }

  lemma JoinHead(x: String, t: seq<String>, sep: String)
    requires |t| >= 1
    ensures Join([x + t[0]] + t[1..], sep) == x + Join(t, sep)
  {
    if |t| > 1 {
      assert ([x + t[0]] + t[1..])[1..] == t[1..];
    }
  }

  lemma {:induction false} JoinSnoc(ps: seq<String>, p: String, sep: String)
    requires |ps| >= 1
    ensures Join(ps + [p], sep) == Join(ps, sep) + sep + p
    decreases |ps|
  {
    if |ps| > 1 {
      assert (ps + [p])[1..] == ps[1..] + [p];
      JoinSnoc(ps[1..], p, sep);
    }
  }

  /** `j` is the text `s` back, or `s` cut at a position i within the last
      |sep| - 1 characters and followed by the separator. */
  predicate JoinsBack(j: String, s: String, sep: String)
  {
    j == s || exists i :: 0 <= i < |s| && |s| - |sep| < i && j == s[..i] + sep
  }

  lemma JoinsBackSeparator(j: String, rest: String, sep: String)
    requires JoinsBack(j, rest, sep)
    ensures JoinsBack(sep + j, sep + rest, sep)
  {
    if j != rest {
      var i :| 0 <= i < |rest| && |rest| - |sep| < i && j == rest[..i] + sep;
      assert (sep + rest)[..|sep| + i] == sep + rest[..i];
    }
  }

  lemma JoinsBackChar(c: char, j: String, rest: String, sep: String)
    requires JoinsBack(j, rest, sep)
    ensures JoinsBack([c] + j, [c] + rest, sep)
  {
    if j != rest {
      var i :| 0 <= i < |rest| && |rest| - |sep| < i && j == rest[..i] + sep;
      assert ([c] + rest)[..i + 1] == [c] + rest[..i];
    }
  }

  /** A tail shorter than the separator scans as two empty pieces, which join
      to the separator alone. */
  lemma ScanJoinShort(s: String, sep: String, k: Option<nat>)
    requires |sep| > 0 && 0 < |s| < |sep| && k != Some(0)
    ensures JoinsBack(Join(Scan(s, sep, k), sep), s, sep)
  {
    assert s[Min(|sep|, |s|)..] == [];
    assert Scan(s, sep, k) == ["", ""];
    assert Join(["", ""], sep) == sep;
    assert sep == s[..0] + sep;
  }

  lemma ScanJoinSeparator(s: String, sep: String, k: Option<nat>)
    requires |sep| > 0 && |sep| <= |s| && k != Some(0) && SeparatorAt(s, sep)
    requires JoinsBack(Join(Scan(s[|sep|..], sep, Consume(k)), sep), s[|sep|..], sep)
    ensures JoinsBack(Join(Scan(s, sep, k), sep), s, sep)
  {
    var rest := s[|sep|..];
    var r := Scan(rest, sep, Consume(k));
    assert Min(|sep|, |s|) == |sep|;
    assert Scan(s, sep, k) == [""] + r;
    assert ([""] + r)[1..] == r;
    assert "" + sep == sep;
    assert Join([""] + r, sep) == sep + Join(r, sep);
    assert s == sep + rest;
    JoinsBackSeparator(Join(r, sep), rest, sep);
  }

  lemma ScanJoinChar(s: String, sep: String, k: Option<nat>)
    requires |sep| > 0 && |s| > 0 && k != Some(0) && !SeparatorAt(s, sep)
    requires JoinsBack(Join(Scan(s[1..], sep, k), sep), s[1..], sep)
    ensures JoinsBack(Join(Scan(s, sep, k), sep), s, sep)
  {
    var t := Scan(s[1..], sep, k);
    JoinHead([s[0]], t, sep);
    assert s == [s[0]] + s[1..];
    JoinsBackChar(s[0], Join(t, sep), s[1..], sep);
  }

  /** Joining the scanned pieces gives the text back, except that a tail
      shorter than the separator, reached at position i, counts as a
      separator: the characters from i on are lost. */
  lemma {:induction false} ScanJoin(s: String, sep: String, k: Option<nat>)
    requires |sep| > 0
    ensures JoinsBack(Join(Scan(s, sep, k), sep), s, sep)
    decreases |s|
  {
    if |s| == 0 || k == Some(0) {
    } else if |s| < |sep| {
      ScanJoinShort(s, sep, k);
    } else if SeparatorAt(s, sep) {
      ScanJoin(s[|sep|..], sep, Consume(k));
      ScanJoinSeparator(s, sep, k);
    } else {
      ScanJoin(s[1..], sep, k);
      ScanJoinChar(s, sep, k);
    }
  }

  lemma {:induction false} ScanHeadIsPrefix(s: String, sep: String, k: Option<nat>)
    requires |sep| > 0
    ensures StartsWith(s, Scan(s, sep, k)[0])
    decreases |s|
  {
    if |s| == 0 || k == Some(0) || SeparatorAt(s, sep) {
    } else {
      ScanHeadIsPrefix(s[1..], sep, k);
      var t0 := Scan(s[1..], sep, k)[0];
      assert s[..|t0| + 1] == [s[0]] + s[1..][..|t0|];
    }
  }

  lemma FreeCons(c: char, p: String, s: String, sep: String)
    requires |sep| > 0
    requires Free(p, sep)
    requires StartsWith(s, [c] + p)
    requires !SeparatorAt(s, sep)
    ensures Free([c] + p, sep)
  {
    var q := [c] + p;
    assert |q| >= |sep| ==> q[..|sep|] == s[..|sep|];
    forall i | 0 <= i <= |q|
      ensures !StartsWith(q[i..], sep)
    {
      if i > 0 {
        assert q[i..] == p[i - 1..];
      }
    }
  }

  /** Piece j of the scan does not contain the separator, unless it is the
      last piece and a limit was given: the text after the limit-th separator
      is copied verbatim. */
  lemma {:induction false} ScanPieceFree(s: String, sep: String, k: Option<nat>, j: nat)
    requires |sep| > 0
    requires j < |Scan(s, sep, k)|
    requires j < |Scan(s, sep, k)| - 1 || k.None?
    ensures Free(Scan(s, sep, k)[j], sep)
    decreases |s|
  {
    var r := Scan(s, sep, k);
    if |s| == 0 || k == Some(0) {
    } else if SeparatorAt(s, sep) {
      var rest := s[Min(|sep|, |s|)..];
      var q := Scan(rest, sep, Consume(k));
      assert r == [""] + q;
      if j > 0 {
        ScanPieceFree(rest, sep, Consume(k), j - 1);
        assert r[j] == q[j - 1];
      }
    } else {
      var t := Scan(s[1..], sep, k);
      assert r == [[s[0]] + t[0]] + t[1..];
      ScanPieceFree(s[1..], sep, k, j);
      if j == 0 {
        ScanHeadIsPrefix(s[1..], sep, k);
        assert s[..|t[0]| + 1] == [s[0]] + s[1..][..|t[0]|];
        FreeCons(s[0], t[0], s, sep);
      } else {
        assert r[j] == t[j];
      }
    }
  }

  /** With no limit, no piece split returns contains the separator. */
  lemma SplitPiecesFree(s: String, sep: String)
    requires |sep| > 0
    ensures forall p :: p in SplitSpec(s, sep, None) ==> Free(p, sep)
  {
    var r := Scan(s, sep, None);
    forall p | p in SplitSpec(s, sep, None)
      ensures Free(p, sep)
    {
      var j :| 0 <= j < |SplitSpec(s, sep, None)| && SplitSpec(s, sep, None)[j] == p;
      assert r[j] == p;
      ScanPieceFree(s, sep, None, j);
    }
  }

  /** Splitting gives the empty list exactly for the empty text. */
  lemma SplitEmptyIff(s: String, sep: String, limit: Option<nat>)
    requires |sep| > 0
    ensures SplitSpec(s, sep, limit) == [] <==> s == ""
  {
    if s != "" {
      if limit != Some(0) && SeparatorAt(s, sep) {
        assert |Scan(s, sep, limit)| >= 2;
      }
    }
  }

  /** With a limit L the scan holds at most L + 1 pieces. */
  lemma {:induction false} ScanLimit(s: String, sep: String, n: nat)
    requires |sep| > 0
    ensures |Scan(s, sep, Some(n))| <= n + 1
    decreases |s|
  {
    if |s| == 0 || n == 0 {
    } else if SeparatorAt(s, sep) {
      ScanLimit(s[Min(|sep|, |s|)..], sep, n - 1);
    } else {
      ScanLimit(s[1..], sep, n);
    }
  }

  lemma SplitLimit(s: String, sep: String, n: nat)
    requires |sep| > 0
    ensures |SplitSpec(s, sep, Some(n))| <= n + 1
  {
    ScanLimit(s, sep, n);
  }

  /** When the first occurrence of the separator starts at |a|, the first
      piece is `a` and scanning resumes after the separator. */
  lemma {:induction false} ScanFirstSeparator(a: String, sep: String, b: String, k: Option<nat>)
    requires |sep| > 0 && k != Some(0)
    requires forall i :: 0 <= i < |a| ==> !SeparatorAt((a + sep + b)[i..], sep)
    ensures Scan(a + sep + b, sep, k) == [a] + Scan(b, sep, Consume(k))
    decreases |a|
  {
    var s := a + sep + b;
    if |a| == 0 {
      assert s[..|sep|] == sep;
      assert s[Min(|sep|, |s|)..] == b;
    } else {
      assert !SeparatorAt(s[0..], sep);
      assert s[1..] == a[1..] + sep + b;
      forall i | 0 <= i < |a[1..]|
        ensures !SeparatorAt((a[1..] + sep + b)[i..], sep)
      {
        assert (a[1..] + sep + b)[i..] == s[i + 1..];
      }
      ScanFirstSeparator(a[1..], sep, b, k);
      assert [a[0]] + a[1..] == a;
    }
  }

  /** With limit 1, everything after the first separator is one piece,
      copied verbatim even if it contains the separator again. */
  lemma SplitOnceVerbatim(a: String, sep: String, b: String)
    requires |sep| > 0 && b != ""
    requires forall i :: 0 <= i < |a| ==> !SeparatorAt((a + sep + b)[i..], sep)
    ensures SplitSpec(a + sep + b, sep, Some(1)) == [a, b]
  {
    ScanFirstSeparator(a, sep, b, Some(1));
  }

  /** Round trip for a one-character separator and no limit: joining the
      pieces gives the text back, minus its final character if that is the
      separator. */
  lemma SplitJoinOneChar(s: String, c: char)
    ensures Join(SplitSpec(s, [c], None), [c]) ==
            if |s| > 0 && s[|s| - 1] == c then s[..|s| - 1] else s
  {
    var raw := Scan(s, [c], None);
    var n := |raw|;
    ScanJoin(s, [c], None);
    assert Join(raw, [c]) == s;
    if n > 1 {
      assert raw == raw[..n - 1] + [raw[n - 1]];
      JoinSnoc(raw[..n - 1], raw[n - 1], [c]);
    }
    var last := raw[n - 1];
    if last != "" {
      ScanPieceFree(s, [c], None, n - 1);
      assert !StartsWith(last[|last| - 1..], [c]);
      assert s[|s| - 1] == last[|last| - 1];
    }
  }

  /** The limited split the header parser uses: a single space-free colon. */
  lemma SplitHeaderExample()
    ensures SplitSpec("a: b: c", ": ", Some(1)) == ["a", "b: c"]
  {
    var s: String := "a: b: c";
    assert s == "a" + ": " + "b: c";
    assert s[0..][..2][0] == 'a';
    SplitOnceVerbatim("a", ": ", "b: c");
  }

  /** Two spaces at the end: only the last empty piece is popped. */
  lemma SplitTrailingExample()
    ensures SplitSpec("a  ", " ", None) == ["a", ""]
  {
    assert " "[1..] == "";
    assert Scan(" ", " ", None) == ["", ""];
    assert "  "[1..] == " ";
    assert Scan("  ", " ", None) == ["", "", ""];
    assert "a  "[..1] != " ";
    assert "a  "[1..] == "  ";
    assert ["a  "[0]] + "" == "a";
    assert Scan("a  ", " ", None) == ["a", "", ""];
  }

  /** A separator of two characters: the comparison at the last position is
      skipped and counts as a match, so the final character is lost. */
  lemma SplitShortTailExample()
    ensures SplitSpec("abc", CRLF, None) == ["ab"]
  {
    assert "c"[1..] == "";
    assert Scan("c", CRLF, None) == ["", ""];
    assert "bc"[..2][0] == 'b';
    assert "bc"[1..] == "c";
    assert ["bc"[0]] + "" == "b";
    assert Scan("bc", CRLF, None) == ["b", ""];
    assert "abc"[..2][0] == 'a';
    assert "abc"[1..] == "bc";
    assert ["abc"[0]] + "b" == "ab";
    assert Scan("abc", CRLF, None) == ["ab", ""];
  }

  // ---------------------------------------------------------------------
  // http_request::parse (http_message.hpp:68-108)
  // ---------------------------------------------------------------------

  /** The lines of a request: the text split on CRLF with no limit. */
  function Lines(s: String): seq<String>
  {
    SplitSpec(s, CRLF, None)
  }

  /** The space-separated tokens of the request line. */
  function RequestTokens(lines: seq<String>): seq<String>
    requires |lines| >= 1
  {
    SplitSpec(lines[0], " ", None)
  }

  /** A header line split once on ": ". */
  function HeaderTokens(line: String): seq<String>
  {
    SplitSpec(line, ": ", Some(1))
  }

  /** parse reads tokens[0] and tokens[1] of a header line. */
  predicate HeaderOk(line: String)
  {
    |HeaderTokens(line)| >= 2
  }

  /** The first empty line at or after `from`, or |lines| when there is
      none. */
  function FirstEmpty(lines: seq<String>, from: nat): (r: nat)
    requires from <= |lines|
    ensures from <= r <= |lines|
    ensures r < |lines| ==> lines[r] == ""
    ensures forall i :: from <= i < r ==> lines[i] != ""
    decreases |lines| - from
  {
    if from == |lines| || lines[from] == "" then from else FirstEmpty(lines, from + 1)
  }

  /** Where the header block ends: the first empty line after the request
      line. */
  function HeaderEnd(lines: seq<String>): nat
    requires |lines| >= 1
  {
    FirstEmpty(lines, 1)
  }

  /** The inputs on which parse does not index past the end of a vector: a
      request line with at least two tokens, and header lines with a key and
      a value. */
  predicate ParseDefined(s: String)
  {
    var lines := Lines(s);
    |lines| >= 1 && |RequestTokens(lines)| >= 2 &&
    forall i {:trigger HeaderOk(lines[i])} :: 1 <= i < HeaderEnd(lines) ==> HeaderOk(lines[i])
  }

  /** The key of a header line: the text before its first ": ". */
  function KeyOf(line: String): String
  {
    var t := HeaderTokens(line);
    if |t| >= 1 then t[0] else ""
  }

  /** The value of a header line: the rest of the line after the first ": ". */
  function ValueOf(line: String): String
  {
    var t := HeaderTokens(line);
    if |t| >= 2 then t[1] else ""
  }

  /** The header map built from the header lines in order: a later line
      overwrites an earlier one with the same key. */
  function HeaderMap(hls: seq<String>): map<String, String>
  {
    if |hls| == 0 then map[]
    else HeaderMap(hls[..|hls| - 1])[KeyOf(hls[|hls| - 1]) := ValueOf(hls[|hls| - 1])]
  }

  /** Every line followed by CRLF, in order. */
  function Body(ls: seq<String>): String
  {
    if |ls| == 0 then "" else Body(ls[..|ls| - 1]) + ls[|ls| - 1] + CRLF
  }

  /** The content parse stores: the lines after the first empty line, each
      with its CRLF; nothing when there is no empty line. */
  function ContentOf(lines: seq<String>): (r: String)
    requires |lines| >= 1
    ensures HeaderEnd(lines) + 1 < |lines| ==>
              r == Join(lines[HeaderEnd(lines) + 1..], CRLF) + CRLF
    ensures HeaderEnd(lines) + 1 >= |lines| ==> r == ""
  {
    var e := HeaderEnd(lines);
    if e < |lines| then
      BodyJoin(lines[e + 1..]);
      Body(lines[e + 1..])
    else ""
  }

  lemma {:induction false} BodyJoin(ls: seq<String>)
    ensures |ls| == 0 ==> Body(ls) == ""
    ensures |ls| > 0 ==> Body(ls) == Join(ls, CRLF) + CRLF
    decreases |ls|
  {
    if |ls| > 1 {
      var init := ls[..|ls| - 1];
      BodyJoin(init);
      assert ls == init + [ls[|ls| - 1]];
      JoinSnoc(init, ls[|ls| - 1], CRLF);
    } else if |ls| == 1 {
      assert Body(ls) == Body([]) + ls[0] + CRLF;
    }
  }

  /** A key is in the header map exactly when some header line carries it. */
  lemma {:induction false} HeaderMapKeys(hls: seq<String>, key: String)
    ensures key in HeaderMap(hls) <==> exists i :: 0 <= i < |hls| && KeyOf(hls[i]) == key
    decreases |hls|
  {
    if |hls| > 0 {
      var init := hls[..|hls| - 1];
      HeaderMapKeys(init, key);
      if key in HeaderMap(init) {
        var i :| 0 <= i < |init| && KeyOf(init[i]) == key;
        assert hls[i] == init[i];
      }
      if exists i :: 0 <= i < |hls| && KeyOf(hls[i]) == key {
        var i :| 0 <= i < |hls| && KeyOf(hls[i]) == key;
        if i < |hls| - 1 {
          assert init[i] == hls[i];
        }
      }
    }
  }

  /** The value stored under a key is the one on the last line carrying it. */
  lemma {:induction false} HeaderMapLast(hls: seq<String>, i: nat)
    requires i < |hls|
    requires forall j :: i < j < |hls| ==> KeyOf(hls[j]) != KeyOf(hls[i])
    ensures KeyOf(hls[i]) in HeaderMap(hls)
    ensures HeaderMap(hls)[KeyOf(hls[i])] == ValueOf(hls[i])
    decreases |hls|
  {
    if i < |hls| - 1 {
      var init := hls[..|hls| - 1];
      assert init[i] == hls[i];
      HeaderMapLast(init, i);
    }
  }

  /** A header line `key: value` whose key does not contain ": " parses to
      that key and value, whatever the value contains. */
  lemma HeaderLineTokens(key: String, value: String)
    requires value != ""
    requires forall i :: 0 <= i < |key| ==> !SeparatorAt((key + ": " + value)[i..], ": ")
    ensures HeaderTokens(key + ": " + value) == [key, value]
    ensures KeyOf(key + ": " + value) == key && ValueOf(key + ": " + value) == value
  {
    SplitOnceVerbatim(key, ": ", value);
  }

  lemma HeaderMapStep(lines: seq<String>, i: nat)
    requires 1 <= i < |lines|
    ensures HeaderMap(lines[1..i + 1]) == HeaderMap(lines[1..i])[KeyOf(lines[i]) := ValueOf(lines[i])]
  {
    assert lines[1..i + 1][..i - 1] == lines[1..i];
  }

  lemma BodyStep(lines: seq<String>, a: nat, j: nat)
    requires a <= j < |lines|
    ensures Body(lines[a..j + 1]) == Body(lines[a..j]) + lines[j] + CRLF
  {
    assert lines[a..j + 1][..j - a] == lines[a..j];
  }

  /** The header loop of parse: one entry per line after the request line,
      until the first empty line; `contentStart` is the index after that
      line, or -1 when there is none. */
  method ParseHeaders(lines: seq<String>) returns (hs: map<String, String>, contentStart: int)
    requires |lines| >= 1
    requires forall i {:trigger HeaderOk(lines[i])} :: 1 <= i < HeaderEnd(lines) ==> HeaderOk(lines[i])
    ensures hs == HeaderMap(lines[1..HeaderEnd(lines)])
    ensures contentStart == if HeaderEnd(lines) < |lines| then HeaderEnd(lines) + 1 else -1
  {
    hs := map[];
    contentStart := -1;
    var i := 1;
    while i < |lines|
      invariant 1 <= i <= |lines|
      invariant forall j :: 1 <= j < i ==> lines[j] != ""
      invariant i <= HeaderEnd(lines)
      invariant hs == HeaderMap(lines[1..i])
      invariant contentStart == -1
    {
      var tokens := Split(lines[i], ": ", Some(1));
      SplitEmptyIff(lines[i], ": ", Some(1));
      if |tokens| == 0 {
        contentStart := i + 1;
        break;
      }
      assert HeaderOk(lines[i]);
      HeaderMapStep(lines, i);
      hs := hs[tokens[0] := tokens[1]];
      i := i + 1;
    }
    assert i == HeaderEnd(lines);
  }

  /** The content loop of parse: every line from `start` on, each followed by
      CRLF; the same text as joining those lines with CRLF and adding a final
      CRLF. */
  method CollectContent(lines: seq<String>, start: nat) returns (body: String)
    requires start <= |lines|
    ensures body == Body(lines[start..])
    ensures start < |lines| ==> body == Join(lines[start..], CRLF) + CRLF
  {
    body := "";
    var j := start;
    while j < |lines|
      invariant start <= j <= |lines|
      invariant body == Body(lines[start..j])
    {
      BodyStep(lines, start, j);
      body := body + lines[j] + CRLF;
      j := j + 1;
    }
    assert lines[start..j] == lines[start..];
    BodyJoin(lines[start..]);
  }

  /** A parsed request (http_request): method, URI, header map and body. The
      source names the method field `type`. */
  class HttpRequest {
    var requestType: String
    var uri: String
    var headers: map<String, String>
    var content: String

    constructor()
      ensures requestType == "" && uri == "" && headers == map[] && content == ""
    {
      requestType := "";
      uri := "";
      headers := map[];
      content := "";
    }

    /** parse: the request line gives the method and the URI, the lines up
        to the first empty one the headers (the old headers are dropped), and
        the lines after it the content. */
    method Parse(s: String)
      requires ParseDefined(s)
      modifies this
      ensures requestType == RequestTokens(Lines(s))[0]
      ensures uri == RequestTokens(Lines(s))[1]
      ensures headers == HeaderMap(Lines(s)[1..HeaderEnd(Lines(s))])
      ensures content == ContentOf(Lines(s))
    {
      var lines := Split(s, CRLF, None);
      var tokens := Split(lines[0], " ", None);
      var method_, target := tokens[0], tokens[1];

      var hs, contentStart := ParseHeaders(lines);
      var body := "";
      if contentStart != -1 {
        body := CollectContent(lines, contentStart);
      }
      requestType, uri, headers, content := method_, target, hs, body;
    }
  }

  // ---------------------------------------------------------------------
  // http_response::get_HTTP (http_message.hpp:111-126)
  // ---------------------------------------------------------------------

  /** The fixed status line and headers every reply starts with, up to the
      Content-Length value. */
  const ReplyHead: String :=
    "HTTP/1.1 200 OK\r\nConnection: Keep-Alive\r\nContent-Type: text/html; charset=UTF-8\r\nContent-Length: "

  predicate IsDigit(c: char)
  {
    '0' <= c <= '9'
  }

  function DigitChar(d: nat): char
    requires d < 10
  {
    ['0', '1', '2', '3', '4', '5', '6', '7', '8', '9'][d]
  }

  /** std::to_string of a size: decimal, no leading zeros, "0" for zero. */
  function Decimal(n: nat): (d: String)
    ensures |d| >= 1 && forall i :: 0 <= i < |d| ==> IsDigit(d[i])
  {
    if n < 10 then [DigitChar(n)] else Decimal(n / 10) + [DigitChar(n % 10)]
  }

  /** The number a run of decimal digits denotes. */
  function DecimalValue(d: String): nat
    requires forall i :: 0 <= i < |d| ==> IsDigit(d[i])
  {
    if |d| == 0 then 0
    else
      assert IsDigit(d[|d| - 1]);
      DecimalValue(d[..|d| - 1]) * 10 + (d[|d| - 1] as int - '0' as int)
  }

  lemma {:induction false} DecimalRoundTrip(n: nat)
    ensures DecimalValue(Decimal(n)) == n
    decreases n
  {
    if n >= 10 {
      DecimalRoundTrip(n / 10);
      var d := Decimal(n);
      assert d[..|d| - 1] == Decimal(n / 10);
    }
  }

  /** The length of the run of digits `s` starts with. */
  function DigitRun(s: String): (m: nat)
    ensures m <= |s|
    ensures forall i :: 0 <= i < m ==> IsDigit(s[i])
    ensures m < |s| ==> !IsDigit(s[m])
  {
    if |s| == 0 || !IsDigit(s[0]) then 0 else 1 + DigitRun(s[1..])
  }

  lemma {:induction false} DigitRunOf(d: String, rest: String)
    requires forall i :: 0 <= i < |d| ==> IsDigit(d[i])
    requires |rest| > 0 && !IsDigit(rest[0])
    ensures DigitRun(d + rest) == |d|
    decreases |d|
  {
    if |d| > 0 {
      assert (d + rest)[1..] == d[1..] + rest;
      DigitRunOf(d[1..], rest);
    }
  }

  /** How a client reads a reply that starts with `head`: the head, a
      decimal Content-Length, the empty line, and then exactly that many bytes
      of body; None when the text is not of that form or the body is short. */
  function ReadReplyAfter(head: String, text: String): Option<String>
  {
    if !StartsWith(text, head) then None
    else
      var t := text[|head|..];
      var m := DigitRun(t);
      if m == 0 || !StartsWith(t[m..], CRLF + CRLF) then None
      else
        var n := DecimalValue(t[..m]);
        var b := t[m + 4..];
        if |b| < n then None else Some(b[..n])
  }

  function ReadReply(text: String): Option<String>
  {
    ReadReplyAfter(ReplyHead, text)
  }

  /** Reading back a reply built from a head, a run of digits and a body. */
  lemma ReadReplyOf(head: String, d: String, body: String)
    requires |d| >= 1 && forall i :: 0 <= i < |d| ==> IsDigit(d[i])
    requires DecimalValue(d) <= |body|
    ensures ReadReplyAfter(head, head + (d + (CRLF + CRLF + body))) == Some(body[..DecimalValue(d)])
  {
    var t := d + (CRLF + CRLF + body);
    var r := head + t;
    assert r[..|head|] == head;
    assert r[|head|..] == t;
    DigitRunOf(d, CRLF + CRLF + body);
    assert t[..|d|] == d;
    assert t[|d|..] == CRLF + CRLF + body;
    assert t[|d| + 4..] == body;
  }

  /** get_HTTP as written: it returns at its first statement a constant reply
      that declares an empty body, so `response` is never sent. */
  function GetHttp(response: String): (r: String)
    ensures ReadReply(r) == Some("")
  {
    var r := "HTTP/1.1 200 OK\r\nConnection: Keep-Alive\r\nContent-Type: text/html; charset=UTF-8\r\nContent-Length: 0\r\n\r\n";
    assert r == ReplyHead + ("0" + (CRLF + CRLF + ""));
    assert DecimalValue("0") == DecimalValue("") * 10 + 0;
    ReadReplyOf(ReplyHead, "0", "");
    r
  }

  /** Two different bodies produce the same reply text: the body is lost. */
  lemma GetHttpDropsBody()
    ensures GetHttp("<p>hi</p>") == GetHttp("")
    ensures ReadReply(GetHttp("<p>hi</p>")) != Some("<p>hi</p>")
  {
  }

  /** get_HTTP as its unreachable lines 117-125 build it: the head, the
      decimal length of the body, the empty line, and the body. */
  function Serialize(response: String): (r: String)
    ensures ReadReply(r) == Some(response)
  {
    var d := Decimal(|response|);
    DecimalRoundTrip(|response|);
    ReadReplyOf(ReplyHead, d, response);
    assert response[..DecimalValue(d)] == response;
    ReplyHead + (Decimal(|response|) + (CRLF + CRLF + response))
  }
}
