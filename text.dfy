/**
 The string operations of Rust's `str` that the placeholder builder uses,
 on strings as sequences of characters: `split('\n')`, `join`, `find`,
 `contains`, `replace`, `trim_end` and `trim`, with `trim_start`, the
 leading half of `trim`.
 Offsets are counted in characters where Rust counts bytes; the prefix a
 byte offset cuts off is the same.
 */
module Text {
  import opened Prelude

  /** `str::split('\n')`: the pieces between newlines (n newlines give n + 1 pieces). */
  function Split(s: string): (r: seq<string>)
    ensures |r| >= 1
    ensures forall i :: 0 <= i < |r| ==> '\n' !in r[i]
    decreases |s|
  {
    if |s| == 0 then [""]
    else
      var rest := Split(s[1..]);
      if s[0] == '\n' then [""] + rest
      else [[s[0]] + rest[0]] + rest[1..]
  }

  /** `[String]::join(sep)`: the pieces with `sep` between each two neighbours. */
  function Join(pieces: seq<string>, sep: string): string
  {
    if |pieces| == 0 then ""
    else if |pieces| == 1 then pieces[0]
    else pieces[0] + sep + Join(pieces[1..], sep)
  }

  lemma JoinCons(x: string, rest: seq<string>, sep: string)
    requires |rest| >= 1
    ensures Join([x] + rest, sep) == x + sep + Join(rest, sep)
  {
    assert ([x] + rest)[1..] == rest;
  }

  /** Joining the lines of `s` with newlines gives `s` back. */
  lemma {:induction false} JoinSplit(s: string)
    ensures Join(Split(s), "\n") == s
    decreases |s|
  {
    if |s| > 0 {
      var rest := Split(s[1..]);
      JoinSplit(s[1..]);
      if s[0] == '\n' {
        JoinCons("", rest, "\n");
      } else if |rest| == 1 {
        assert Split(s) == [[s[0]] + rest[0]];
      } else {
        assert rest == [rest[0]] + rest[1..];
        JoinCons(rest[0], rest[1..], "\n");
        JoinCons([s[0]] + rest[0], rest[1..], "\n");
      }
    }
  }

  /** A string without a newline is a single line. */
  lemma {:induction false} SplitSingle(a: string)
    requires '\n' !in a
    ensures Split(a) == [a]
    decreases |a|
  {
    if |a| > 0 {
      assert '\n' !in a[1..] by {
        forall i | 0 <= i < |a[1..]| ensures a[1..][i] != '\n' {
          assert a[1..][i] == a[i + 1];
        }
      }
      SplitSingle(a[1..]);
      assert [a[0]] + a[1..] == a;
    }
  }

  /** Splitting `a + "\n" + b` for a newline-free `a` gives `a` and the lines of `b`. */
  lemma {:induction false} SplitAfterLine(a: string, b: string)
    requires '\n' !in a
    ensures Split(a + "\n" + b) == [a] + Split(b)
    decreases |a|
  {
    var s := a + "\n" + b;
    if |a| == 0 {
      assert s[1..] == b;
    } else {
      assert s[1..] == a[1..] + "\n" + b;
      assert '\n' !in a[1..] by {
        forall i | 0 <= i < |a[1..]| ensures a[1..][i] != '\n' {
          assert a[1..][i] == a[i + 1];
        }
      }
      SplitAfterLine(a[1..], b);
      assert [a[0]] + a[1..] == a;
    }
  }

  /** Splitting newline-free pieces joined by newlines gives the pieces back. */
  lemma {:induction false} SplitJoin(pieces: seq<string>)
    requires |pieces| >= 1
    requires forall i :: 0 <= i < |pieces| ==> '\n' !in pieces[i]
    ensures Split(Join(pieces, "\n")) == pieces
    decreases |pieces|
  {
    if |pieces| == 1 {
      SplitSingle(pieces[0]);
    } else {
      assert pieces == [pieces[0]] + pieces[1..];
      JoinCons(pieces[0], pieces[1..], "\n");
      SplitJoin(pieces[1..]);
      SplitAfterLine(pieces[0], Join(pieces[1..], "\n"));
    }
  }

  /** Splitting a non-empty text: a leading newline starts a new line, any
      other character joins the first line of the rest. */
  lemma SplitCons(s: string)
    requires |s| > 0
    ensures Split(s) == if s[0] == '\n' then [""] + Split(s[1..])
      else [[s[0]] + Split(s[1..])[0]] + Split(s[1..])[1..]
  {
  }

  lemma AppendAssoc<T>(x: seq<T>, y: seq<T>, z: seq<T>)
    ensures x + (y + z) == (x + y) + z
  {
  }

  lemma AppendFirst<T>(x: seq<T>, y: seq<T>)
    requires |x| >= 1
    ensures (x + y)[0] == x[0] && (x + y)[1..] == x[1..] + y
  {
  }

  /** A newline splits the text into the lines before it and the lines after it. */
  lemma {:induction false} SplitConcat(a: string, b: string)
    ensures Split(a + "\n" + b) == Split(a) + Split(b)
    decreases |a|
  {
    var s := a + "\n" + b;
    SplitCons(s);
    if |a| == 0 {
      assert s[0] == '\n' && s[1..] == b;
    } else {
      assert s[0] == a[0] && s[1..] == a[1..] + "\n" + b;
      SplitCons(a);
      SplitConcat(a[1..], b);
      var ra, rb := Split(a[1..]), Split(b);
      if a[0] == '\n' {
        AppendAssoc([""], ra, rb);
      } else {
        AppendFirst(ra, rb);
        AppendAssoc([[a[0]] + ra[0]], ra[1..], rb);
      }
    }
  }

  /** A newline-free prefix stays on the first line. */
  lemma {:induction false} SplitPrefix(a: string, b: string)
    requires '\n' !in a
    ensures Split(a + b)[0] == a + Split(b)[0]
    decreases |a|
  {
    if |a| == 0 {
      assert a + b == b && a + Split(b)[0] == Split(b)[0];
    } else {
      var t := a + b;
      assert t[0] == a[0] && t[1..] == a[1..] + b;
      assert '\n' !in a[1..] by {
        forall i | 0 <= i < |a[1..]| ensures a[1..][i] != '\n' {
          assert a[1..][i] == a[i + 1];
        }
      }
      SplitCons(t);
      SplitPrefix(a[1..], b);
      assert a == [a[0]] + a[1..];
      AppendAssoc([a[0]], a[1..], Split(b)[0]);
    }
  }

  /** A newline-free piece joined with newlines is one of the lines of the result. */
  lemma {:induction false} JoinPieceInSplit(pieces: seq<string>, j: nat)
    requires j < |pieces| && '\n' !in pieces[j]
    ensures pieces[j] in Split(Join(pieces, "\n"))
    decreases |pieces|
  {
    if |pieces| == 1 {
      SplitSingle(pieces[0]);
    } else {
      SplitConcat(pieces[0], Join(pieces[1..], "\n"));
      if j == 0 {
        SplitSingle(pieces[0]);
      } else {
        assert pieces[1..][j - 1] == pieces[j];
        JoinPieceInSplit(pieces[1..], j - 1);
      }
    }
  }

  /** `pat` occurs in `s` starting at offset `i`. */
  predicate OccursAt(s: string, pat: string, i: int)
  {
    0 <= i && i + |pat| <= |s| && s[i..i + |pat|] == pat
  }

  /** The first occurrence of `pat` in `s` at or after `from`. */
  function FindFrom(s: string, pat: string, from: nat): (r: Option<nat>)
    ensures r.Some? ==> from <= r.value && OccursAt(s, pat, r.value)
    ensures r.Some? ==> forall j :: from <= j < r.value ==> !OccursAt(s, pat, j)
    ensures r.None? ==> forall j :: from <= j ==> !OccursAt(s, pat, j)
    decreases |s| - from
  {
    if from + |pat| > |s| then None
    else if s[from..from + |pat|] == pat then Some(from)
    else FindFrom(s, pat, from + 1)
  }

  /** `str::find`: the offset of the first occurrence of `pat` in `s`, if any. */
  function Find(s: string, pat: string): (r: Option<nat>)
    ensures r.Some? ==> OccursAt(s, pat, r.value)
    ensures r.None? ==> forall j :: 0 <= j ==> !OccursAt(s, pat, j)
  {
    FindFrom(s, pat, 0)
  }

  /** The offset `find` returns is the first occurrence. */
  lemma FindFirst(s: string, pat: string)
    ensures Find(s, pat).Some? ==> forall j :: 0 <= j < Find(s, pat).value ==> !OccursAt(s, pat, j)
  {
  }

  /** `str::contains`. */
  predicate Contains(s: string, pat: string)
  {
    Find(s, pat).Some?
  }

  /** An occurrence anywhere is enough for `Contains`. */
  lemma OccurrenceContains(s: string, pat: string, i: int)
    requires OccursAt(s, pat, i)
    ensures Contains(s, pat)
  {
  }

  /** What `s` contains, `s + b` and `a + s` contain too. */
  lemma ContainsBefore(s: string, b: string, pat: string)
    requires Contains(s, pat)
    ensures Contains(s + b, pat)
  {
    var i := Find(s, pat).value;
    assert (s + b)[i..i + |pat|] == s[i..i + |pat|];
    OccurrenceContains(s + b, pat, i);
  }

  lemma ContainsAfter(a: string, s: string, pat: string)
    requires Contains(s, pat)
    ensures Contains(a + s, pat)
  {
    var i := Find(s, pat).value;
    assert (a + s)[|a| + i..|a| + i + |pat|] == s[i..i + |pat|];
    OccurrenceContains(a + s, pat, |a| + i);
  }

  /** The text before the first occurrence of `pat` does not contain `pat`. */
  lemma BeforeFirst(s: string, pat: string, p: nat)
    requires |pat| > 0
    requires Find(s, pat) == Some(p)
    ensures !Contains(s[..p], pat)
  {
    FindFirst(s, pat);
    var t := s[..p];
    if Contains(t, pat) {
      var j := Find(t, pat).value;
      assert s[j..j + |pat|] == t[j..j + |pat|];
      assert OccursAt(s, pat, j);
      assert false;
    }
  }

  /** The pieces between the occurrences of a non-empty `pat`, found left
      to right without overlap: the cut that specifies `replace` below. */
  function Fields(s: string, pat: string): (r: seq<string>)
    requires |pat| > 0
    ensures |r| >= 1
    decreases |s|
  {
    match Find(s, pat)
    case None => [s]
    case Some(p) => [s[..p]] + Fields(s[p + |pat|..], pat)
  }

  /** A text is the part before a slice, the slice and the part after it. */
  lemma CutAround(s: string, i: nat, j: nat)
    requires i <= j <= |s|
    ensures s == s[..i] + s[i..j] + s[j..]
  {
  }

  /** Rejoining the fields with the pattern gives the string back. */
  lemma {:induction false} FieldsJoin(s: string, pat: string)
    requires |pat| > 0
    ensures Join(Fields(s, pat), pat) == s
    decreases |s|
  {
    match Find(s, pat)
    case None =>
    case Some(p) =>
      var rest := s[p + |pat|..];
      var fs := Fields(rest, pat);
      assert Fields(s, pat) == [s[..p]] + fs;
      FieldsJoin(rest, pat);
      JoinCons(s[..p], fs, pat);
      assert s[p..p + |pat|] == pat;
      CutAround(s, p, p + |pat|);
  }

  /** No field contains the pattern: with `FieldsJoin`, the fields are the cut
      of `s` at its occurrences. */
  lemma {:induction false} FieldsFree(s: string, pat: string)
    requires |pat| > 0
    ensures forall i :: 0 <= i < |Fields(s, pat)| ==> !Contains(Fields(s, pat)[i], pat)
    decreases |s|
  {
    match Find(s, pat)
    case None =>
    case Some(p) =>
      var rest := s[p + |pat|..];
      FieldsFree(rest, pat);
      BeforeFirst(s, pat, p);
      var fs := Fields(s, pat);
      assert fs == [s[..p]] + Fields(rest, pat);
      forall i | 0 <= i < |fs| ensures !Contains(fs[i], pat) {
        if i > 0 { assert fs[i] == Fields(rest, pat)[i - 1]; }
      }
  }

  /** `str::replace(pat, rep)` for a non-empty pattern: each occurrence, found
      left to right without overlap, is replaced by `rep`. */
  function ReplaceAll(s: string, pat: string, rep: string): string
    requires |pat| > 0
    decreases |s|
  {
    match Find(s, pat)
    case None => s
    case Some(p) => s[..p] + rep + ReplaceAll(s[p + |pat|..], pat, rep)
  }

  /** Replacing is rejoining the fields of the cut with the replacement; with
      `FieldsJoin` and `FieldsFree` this says that every occurrence is replaced and nothing else
      changes. */
  lemma {:induction false} ReplaceAllJoinsFields(s: string, pat: string, rep: string)
    requires |pat| > 0
    ensures ReplaceAll(s, pat, rep) == Join(Fields(s, pat), rep)
    decreases |s|
  {
    match Find(s, pat)
    case None =>
    case Some(p) =>
      var rest := s[p + |pat|..];
      var fs := Fields(rest, pat);
      assert Fields(s, pat) == [s[..p]] + fs;
      ReplaceAllFirst(s, pat, rep, p);
      ReplaceAllJoinsFields(rest, pat, rep);
      JoinCons(s[..p], fs, rep);
  }

  /** Without an occurrence, replacing changes nothing. */
  lemma ReplaceAllNone(s: string, pat: string, rep: string)
    requires |pat| > 0 && Find(s, pat).None?
    ensures ReplaceAll(s, pat, rep) == s
  {
  }

  /** The first occurrence is replaced, then the rest after it. */
  lemma {:induction false} ReplaceAllFirst(s: string, pat: string, rep: string, p: nat)
    requires |pat| > 0 && Find(s, pat) == Some(p)
    ensures ReplaceAll(s, pat, rep) == s[..p] + rep + ReplaceAll(s[p + |pat|..], pat, rep)
  {
    assert OccursAt(s, pat, p);
  }

  /** With a single occurrence, replacing swaps just that one. */
  lemma ReplaceOnce(s: string, pat: string, rep: string, p: nat)
    requires |pat| > 0 && Find(s, pat) == Some(p)
    requires Find(s[p + |pat|..], pat).None?
    ensures ReplaceAll(s, pat, rep) == s[..p] + rep + s[p + |pat|..]
  {
    ReplaceAllFirst(s, pat, rep, p);
    ReplaceAllNone(s[p + |pat|..], pat, rep);
  }

  /** `char::is_whitespace`: the Unicode White_Space property. */
  predicate IsWhitespace(c: char)
  {
    ('\t' <= c <= '\r') || c == ' ' || c == '\U{0085}' || c == '\U{00A0}' || c == '\U{1680}'
    || ('\U{2000}' <= c <= '\U{200A}') || c == '\U{2028}' || c == '\U{2029}'
    || c == '\U{202F}' || c == '\U{205F}' || c == '\U{3000}'
  }

  /** `str::trim_end`: the longest prefix of `s` that does not end in whitespace. */
  function TrimEnd(s: string): (r: string)
    ensures r <= s
    ensures |r| == 0 || !IsWhitespace(r[|r| - 1])
    ensures forall i :: |r| <= i < |s| ==> IsWhitespace(s[i])
    decreases |s|
  {
    if |s| > 0 && IsWhitespace(s[|s| - 1]) then TrimEnd(s[..|s| - 1]) else s
  }

  /** `str::trim_start`: the longest suffix of `s` that does not start with whitespace. */
  function TrimStart(s: string): (r: string)
    ensures |r| <= |s| && r == s[|s| - |r|..]
    ensures |r| == 0 || !IsWhitespace(r[0])
    ensures forall i :: 0 <= i < |s| - |r| ==> IsWhitespace(s[i])
    decreases |s|
  {
    if |s| > 0 && IsWhitespace(s[0]) then TrimStart(s[1..]) else s
  }

  /** `str::trim`: whitespace removed at both ends. */
  function Trim(s: string): (r: string)
    ensures |r| == 0 || (!IsWhitespace(r[0]) && !IsWhitespace(r[|r| - 1]))
  {
    var e := TrimEnd(s);
    var r := TrimStart(e);
    assert |r| > 0 ==> r[|r| - 1] == e[|e| - 1];
    r
  }

  /** A slice of a prefix is the same slice of the whole. */
  lemma SliceOfPrefix(s: string, e: string, a: nat)
    requires e <= s && a <= |e|
    ensures s[a..|e|] == e[a..]
    ensures forall i :: 0 <= i < |e| ==> s[i] == e[i]
  {
    assert e == s[..|e|];
  }

  /** The trimmed string is the slice of `s` at offset `a`, with only whitespace
      around it. */
  lemma TrimSlice(s: string) returns (a: nat)
    ensures a + |Trim(s)| <= |s| && s[a..a + |Trim(s)|] == Trim(s)
    ensures forall i :: 0 <= i < a ==> IsWhitespace(s[i])
    ensures forall i :: a + |Trim(s)| <= i < |s| ==> IsWhitespace(s[i])
  {
    var e := TrimEnd(s);
    var r := TrimStart(e);
    assert Trim(s) == r;
    a := |e| - |r|;
    assert a + |r| == |e| && r == e[a..];
    SliceOfPrefix(s, e, a);
  }
}
