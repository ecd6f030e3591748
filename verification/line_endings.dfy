/** The two line-ending conventions a remote report can arrive in: the same
    text with every line feed written as CR LF, and how `split` by a pattern
    carries over from one to the other. */
module LineEndings {
  import opened Wrappers
  import opened Text

  /** How one character is written with CR LF line endings. */
  function CrlfChar(c: char): string
  {
    if c == '\n' then "\r\n" else [c]
  }

  /** `s.replace("\n", "\r\n")`: `s` with every line feed written as CR LF. */
  function Crlf(s: string): (r: string)
    ensures |r| >= |s|
  {
    if s == [] then [] else CrlfChar(s[0]) + Crlf(s[1..])
  }

  /** `Crlf` of each piece. */
  function CrlfAll(parts: seq<string>): (r: seq<string>)
    ensures |r| == |parts|
  {
    seq(|parts|, k requires 0 <= k < |parts| => Crlf(parts[k]))
  }

  lemma {:induction false} CrlfAppend(a: string, b: string)
    ensures Crlf(a + b) == Crlf(a) + Crlf(b)
    decreases |a|
  {
    if a == [] {
      assert a + b == b;
    } else {
      assert (a + b)[0] == a[0];
      assert (a + b)[1..] == a[1..] + b;
      CrlfAppend(a[1..], b);
    }
  }

  /** Text without line feeds is written the same way in both conventions. */
  lemma {:induction false} CrlfNoLineFeed(s: string)
    requires '\n' !in s
    ensures Crlf(s) == s
    decreases |s|
  {
    if s != [] {
      assert s[0] in s;
      assert '\n' !in s[1..] by {
        forall k | 0 <= k < |s[1..]|
          ensures s[1..][k] != '\n'
        {
          assert s[1..][k] == s[k + 1] && s[k + 1] in s;
        }
      }
      CrlfNoLineFeed(s[1..]);
      assert s == [s[0]] + s[1..];
    }
  }

  /** A line without line feeds, ended by one, is ended by CR LF in the
      CR LF form. */
  lemma CrlfLineEnd(a: string)
    requires '\n' !in a
    ensures Crlf(a + "\n") == a + "\r\n"
  {
    CrlfNoLineFeed(a);
    CrlfAppend(a, "\n");
    assert Crlf("\n") == CrlfChar('\n') + Crlf([]);
  }

  /** A text without CR that is not empty starts with a character other
      than a line feed once written with CR LF. */
  lemma CrlfHead(d: string)
    requires d != [] && '\r' !in d
    ensures |Crlf(d)| >= 1 && Crlf(d)[0] != '\n'
  {
    assert d[0] in d;
  }

  lemma CrlfTail(x: string)
    requires x != [] && '\r' !in x
    ensures '\r' !in x[1..]
  {
    forall k | 0 <= k < |x[1..]|
      ensures x[1..][k] != '\r'
    {
      assert x[1..][k] == x[k + 1] && x[k + 1] in x;
    }
  }

  lemma CrlfSlice(x: string, a: nat, b: nat)
    requires a <= b <= |x| && '\r' !in x
    ensures '\r' !in x[a..b]
  {
    forall k | 0 <= k < b - a
      ensures x[a..b][k] != '\r'
    {
      assert x[a..b][k] == x[a + k] && x[a + k] in x;
    }
  }

  /** In the CR LF form of a text without CR, every line feed follows a CR. */
  lemma {:induction false} CrlfLineFeedAfterCr(s: string, k: nat)
    requires '\r' !in s && k < |Crlf(s)|
    ensures Crlf(s)[k] == '\n' ==> k > 0 && Crlf(s)[k - 1] == '\r'
    decreases |s|
  {
    var e := CrlfChar(s[0]);
    assert Crlf(s) == e + Crlf(s[1..]);
    assert s[0] in s;
    if k >= |e| {
      CrlfTail(s);
      CrlfLineFeedAfterCr(s[1..], k - |e|);
      assert Crlf(s)[k] == Crlf(s[1..])[k - |e|];
      if k - |e| > 0 {
        assert Crlf(s)[k - 1] == Crlf(s[1..])[k - |e| - 1];
      }
    }
  }

  /** The characters of an occurrence are those of the pattern. */
  lemma OccursChar(c: string, pat: string, p: nat, k: nat)
    requires OccursAt(c, pat, p) && k < |pat|
    ensures p + k < |c| && c[p + k] == pat[k]
  {
    assert c[p..p + |pat|][k] == c[p + k];
  }

  /** A pattern with a line feed that does not follow a CR never occurs in
      the CR LF form of a text without CR. */
  lemma CrlfLacks(s: string, pat: string, i: nat)
    requires '\r' !in s
    requires 0 < i < |pat| && pat[i] == '\n' && pat[i - 1] != '\r'
    ensures Find(Crlf(s), pat).None?
  {
    var c := Crlf(s);
    if Find(c, pat).Some? {
      var p := Find(c, pat).value;
      FindOccurs(c, pat);
      OccursChar(c, pat, p, i);
      OccursChar(c, pat, p, i - 1);
      CrlfLineFeedAfterCr(s, p + i);
    }
  }

  /** Such a pattern leaves the CR LF form of a text in one piece. */
  lemma CrlfNoSecondField(s: string, pat: string, i: nat)
    requires '\r' !in s
    requires 0 < i < |pat| && pat[i] == '\n' && pat[i - 1] != '\r'
    ensures SecondField(Crlf(s), pat).None?
  {
    CrlfLacks(s, pat, i);
    SplitCount(Crlf(s), pat);
  }

  /** Written with CR LF, a character other than CR is told apart from any
      other by its first character. */
  lemma CrlfCharFirst(a: char, b: char)
    requires a != '\r' && b != '\r' && CrlfChar(a)[0] == CrlfChar(b)[0]
    ensures a == b
  {
  }

  /** The CR LF form of a non-empty text: its first character's form, then
      the form of the rest. */
  lemma CrlfUnfold(x: string)
    requires x != []
    ensures Crlf(x) == CrlfChar(x[0]) + Crlf(x[1..])
    ensures |Crlf(x)| >= 1 && Crlf(x)[0] == CrlfChar(x[0])[0]
  {
  }

  /** The prefix relation drops a shared first character. */
  lemma PrefixAfterHead(e: string, a: string, b: string)
    requires |e + a| <= |e + b| && (e + b)[..|e + a|] == e + a
    ensures |a| <= |b| && b[..|a|] == a
  {
    assert b[..|a|] == (e + b)[|e|..|e| + |a|];
  }

  /** When the CR LF form of `d` starts the CR LF form of `x`, `d` starts
      `x` (neither has a CR). */
  lemma {:induction false} CrlfPrefix(d: string, x: string)
    requires '\r' !in d && '\r' !in x
    requires |Crlf(d)| <= |Crlf(x)| && Crlf(x)[..|Crlf(d)|] == Crlf(d)
    ensures |d| <= |x| && x[..|d|] == d
    decreases |d|
  {
    if d != [] {
      CrlfUnfold(d);
      CrlfUnfold(x);
      assert d[0] in d && x[0] in x;
      CrlfCharFirst(d[0], x[0]);
      PrefixAfterHead(CrlfChar(d[0]), Crlf(d[1..]), Crlf(x[1..]));
      CrlfTail(d);
      CrlfTail(x);
      CrlfPrefix(d[1..], x[1..]);
      assert x[..|d|] == [x[0]] + x[1..][..|d[1..]|];
      assert d == [d[0]] + d[1..];
    }
  }

  /** A slice of `e + r` that starts after `e` is a slice of `r`. */
  lemma SliceAfterPrefix(e: string, r: string, j: nat, n: nat)
    requires |e| <= j && j + n <= |e + r|
    ensures r[j - |e|..j - |e| + n] == (e + r)[j..j + n]
  {
  }

  /** An occurrence in the form of the rest of `x` is one in the form of
      `x`, shifted by its first character's form. */
  lemma CrlfOccursInTail(x: string, d: string, j: nat)
    requires x != [] && OccursAt(Crlf(x), Crlf(d), j) && j >= |CrlfChar(x[0])|
    ensures OccursAt(Crlf(x[1..]), Crlf(d), j - |CrlfChar(x[0])|)
  {
    CrlfUnfold(x);
    SliceAfterPrefix(CrlfChar(x[0]), Crlf(x[1..]), j, |Crlf(d)|);
  }

  /** An occurrence of `d` in the rest of `x` is one in `x`, one character
      later, after one more character's form. */
  lemma OccursShift(x: string, d: string, i: nat)
    requires x != [] && OccursAt(x[1..], d, i)
    ensures OccursAt(x, d, i + 1)
    ensures |Crlf(x[..i + 1])| == |CrlfChar(x[0])| + |Crlf(x[1..][..i])|
  {
    assert x[..i + 1][0] == x[0];
    assert x[..i + 1][1..] == x[1..][..i];
    CrlfUnfold(x[..i + 1]);
    assert x[i + 1..i + 1 + |d|] == x[1..][i..i + |d|];
  }

  /** An occurrence that starts inside the form of the first character
      starts at 0, and is then the image of an occurrence at 0. */
  lemma CrlfOccursFirst(x: string, d: string, j: nat)
    requires '\r' !in x && '\r' !in d && d != []
    requires x != [] && OccursAt(Crlf(x), Crlf(d), j) && j < |CrlfChar(x[0])|
    ensures j == 0 && OccursAt(x, d, 0)
  {
    CrlfHead(d);
    CrlfUnfold(x);
    assert Crlf(x)[j] == Crlf(d)[0];
    assert x[0] in x;
    assert j == 0;
    CrlfPrefix(d, x);
  }

  /** Every occurrence of the CR LF form of `d` in the CR LF form of `x` is
      the image of an occurrence of `d` in `x`. */
  lemma {:induction false} CrlfOccurrence(x: string, d: string, j: nat)
    requires '\r' !in x && '\r' !in d && d != []
    ensures OccursAt(Crlf(x), Crlf(d), j) ==>
      exists i :: 0 <= i <= |x| && OccursAt(x, d, i) && |Crlf(x[..i])| == j
    decreases |x|
  {
    if x != [] && OccursAt(Crlf(x), Crlf(d), j) {
      var e := CrlfChar(x[0]);
      if j >= |e| {
        CrlfOccursInTail(x, d, j);
        CrlfTail(x);
        CrlfOccurrence(x[1..], d, j - |e|);
        var i :| 0 <= i <= |x[1..]| && OccursAt(x[1..], d, i) && |Crlf(x[1..][..i])| == j - |e|;
        OccursShift(x, d, i);
      } else {
        CrlfOccursFirst(x, d, j);
        assert x[..0] == [];
      }
    }
  }

  /** The three parts of a concatenation are its slices. */
  lemma ConcatSlices(a: string, b: string, c: string)
    ensures var s := a + b + c;
      && s[..|a|] == a && s[|a|..|a| + |b|] == b && s[|a| + |b|..] == c
  {
  }

  /** Around an occurrence of `d` in `x`, the CR LF form of `x` is the form
      of the text before it, the form of `d`, and the form of the rest. */
  lemma CrlfAround(x: string, d: string, i: nat)
    requires OccursAt(x, d, i)
    ensures var q := |Crlf(x[..i])|;
      && q + |Crlf(d)| <= |Crlf(x)|
      && Crlf(x)[..q] == Crlf(x[..i])
      && Crlf(x)[q..q + |Crlf(d)|] == Crlf(d)
      && Crlf(x)[q + |Crlf(d)|..] == Crlf(x[i + |d|..])
  {
    var rest := x[i + |d|..];
    assert x == x[..i] + d + rest;
    CrlfAppend(x[..i] + d, rest);
    CrlfAppend(x[..i], d);
    ConcatSlices(Crlf(x[..i]), Crlf(d), Crlf(rest));
  }

  /** A longer prefix has a longer CR LF form. */
  lemma CrlfPrefixLength(x: string, f: nat, i: nat)
    requires f <= i <= |x|
    ensures |Crlf(x[..f])| + (i - f) <= |Crlf(x[..i])|
  {
    assert x[..i] == x[..f] + x[f..i];
    CrlfAppend(x[..f], x[f..i]);
  }

  lemma SomeValue(o: Option<nat>, q: nat)
    requires o.Some? && o.value == q
    ensures o == Some(q)
  {
  }

  /** The image of an occurrence is an occurrence. */
  lemma CrlfOccursImage(x: string, d: string, f: nat)
    requires OccursAt(x, d, f)
    ensures OccursAt(Crlf(x), Crlf(d), |Crlf(x[..f])|)
  {
    CrlfAround(x, d, f);
  }

  /** No occurrence of the CR LF form of `d` starts before the image of the
      first occurrence of `d`. */
  lemma CrlfOccursNotBefore(x: string, d: string, f: nat, r: nat)
    requires '\r' !in x && '\r' !in d && d != []
    requires Find(x, d) == Some(f) && OccursAt(Crlf(x), Crlf(d), r)
    ensures f <= |x| && |Crlf(x[..f])| <= r
  {
    CrlfOccurrence(x, d, r);
    var i :| 0 <= i <= |x| && OccursAt(x, d, i) && |Crlf(x[..i])| == r;
    FindAtMost(x, d, i);
    CrlfPrefixLength(x, f, i);
  }

  /** When `d` occurs in `x`, the first occurrence of its CR LF form is the
      image of its first occurrence. */
  lemma FindCrlfSome(x: string, d: string, f: nat)
    requires '\r' !in x && '\r' !in d && d != []
    requires Find(x, d) == Some(f)
    ensures Find(Crlf(x), Crlf(d)) == Some(|Crlf(x[..f])|)
  {
    FindOccurs(x, d);
    CrlfOccursImage(x, d, f);
    FindAtMost(Crlf(x), Crlf(d), |Crlf(x[..f])|);
    FindOccurs(Crlf(x), Crlf(d));
    CrlfOccursNotBefore(x, d, f, Find(Crlf(x), Crlf(d)).value);
    SomeValue(Find(Crlf(x), Crlf(d)), |Crlf(x[..f])|);
  }

  /** When `d` does not occur in `x`, its CR LF form does not occur in the
      CR LF form of `x`. */
  lemma FindCrlfNone(x: string, d: string)
    requires '\r' !in x && '\r' !in d && d != []
    requires Find(x, d).None?
    ensures Find(Crlf(x), Crlf(d)).None?
  {
    FindSpec(x, d);
    FindSpec(Crlf(x), Crlf(d));
    forall j | 0 <= j
      ensures !OccursAt(Crlf(x), Crlf(d), j)
    {
      CrlfOccurrence(x, d, j);
    }
  }

  /** A split at the first occurrence: the piece before it, then the split
      of the rest. */
  lemma SplitAt(y: string, p: string, q: nat)
    requires p != [] && Find(y, p) == Some(q)
    ensures q + |p| <= |y|
    ensures Split(y, p) == [y[..q]] + Split(y[q + |p|..], p)
  {
  }

  /** The split of a text whose first occurrence of `p` is at `q`, told by
      the piece before it and the split of the rest. */
  lemma SplitStep(y: string, p: string, q: nat, a: string, r: string, tail: seq<string>)
    requires p != [] && Find(y, p) == Some(q)
    requires q + |p| <= |y| && y[..q] == a && y[q + |p|..] == r
    requires Split(r, p) == tail
    ensures Split(y, p) == [a] + tail
  {
    SplitAt(y, p, q);
  }

  lemma CrlfAllCons(a: string, parts: seq<string>)
    ensures CrlfAll([a] + parts) == [Crlf(a)] + CrlfAll(parts)
  {
  }

  /** One step of `SplitCrlf`: at the first occurrence of `d`, given the
      result for the rest of the text. */
  lemma SplitCrlfAt(x: string, d: string, i: nat)
    requires '\r' !in x && '\r' !in d && d != []
    requires Find(x, d) == Some(i)
    requires i + |d| <= |x|
    requires Split(Crlf(x[i + |d|..]), Crlf(d)) == CrlfAll(Split(x[i + |d|..], d))
    ensures Split(Crlf(x), Crlf(d)) == CrlfAll(Split(x, d))
  {
    CrlfHead(d);
    FindCrlfSome(x, d, i);
    FindSpec(x, d);
    SplitAt(x, d, i);
    var rest := x[i + |d|..];
    CrlfAround(x, d, i);
    CrlfAllCons(x[..i], Split(rest, d));
    SplitStep(Crlf(x), Crlf(d), |Crlf(x[..i])|, Crlf(x[..i]), Crlf(rest), CrlfAll(Split(rest, d)));
  }

  /** Splitting the CR LF form of a text by the CR LF form of a pattern
      gives the CR LF forms of the pieces of the original split. */
  lemma {:induction false} SplitCrlf(x: string, d: string)
    requires '\r' !in x && '\r' !in d && d != []
    ensures |Crlf(d)| >= 1
    ensures Split(Crlf(x), Crlf(d)) == CrlfAll(Split(x, d))
    decreases |x|
  {
    CrlfHead(d);
    match Find(x, d)
    case None =>
      FindCrlfNone(x, d);
      assert CrlfAll([x]) == [Crlf(x)];
    case Some(i) =>
      CrlfSlice(x, i + |d|, |x|);
      SplitCrlf(x[i + |d|..], d);
      SplitCrlfAt(x, d, i);
  }

  /** The second field of the CR LF form is the CR LF form of the second
      field. */
  lemma SecondFieldCrlf(x: string, d: string, e: string)
    requires '\r' !in x && '\r' !in d && d != [] && e == Crlf(d)
    ensures e != []
    ensures SecondField(Crlf(x), e).Some? <==> SecondField(x, d).Some?
    ensures SecondField(x, d).Some? ==>
      && SecondField(Crlf(x), e).value == Crlf(SecondField(x, d).value)
      && '\r' !in SecondField(x, d).value
  {
    SplitCrlf(x, d);
    SplitPiecesWithin(x, d, '\r');
  }

  /** Pieces without line feeds are the same in both conventions. */
  lemma CrlfAllNoLineFeed(parts: seq<string>)
    requires forall k :: 0 <= k < |parts| ==> '\n' !in parts[k]
    ensures CrlfAll(parts) == parts
  {
    forall k | 0 <= k < |parts|
      ensures CrlfAll(parts)[k] == parts[k]
    {
      CrlfNoLineFeed(parts[k]);
    }
  }

  /** A line feed alone, written with CR LF. */
  lemma CrlfLineFeed()
    ensures Crlf("\n") == "\r\n"
  {
    CrlfLineEnd([]);
    assert [] + "\n" == "\n";
  }

  /** The pieces of a split at line feeds hold none. */
  lemma LinePiecesFree(x: string)
    ensures forall k :: 0 <= k < |Split(x, "\n")| ==> '\n' !in Split(x, "\n")[k]
  {
    SplitPiecesFree(x, "\n");
    forall k | 0 <= k < |Split(x, "\n")|
      ensures '\n' !in Split(x, "\n")[k]
    {
      ContainsChar(Split(x, "\n")[k], '\n');
    }
  }

  /** Cutting the CR LF form of a text without CR at CR LF gives the lines
      of the text cut at LF. */
  lemma LinesCrlf(x: string)
    requires '\r' !in x
    ensures Split(Crlf(x), "\r\n") == Split(x, "\n")
  {
    CrlfLineFeed();
    SplitCrlf(x, "\n");
    LinePiecesFree(x);
    CrlfAllNoLineFeed(Split(x, "\n"));
  }
}
