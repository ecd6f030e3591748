/** The string operations of Rust's `str` that the source relies on, over
    `seq<char>`: `find`/`contains`, `split` by a non-empty pattern, `join`,
    `split_whitespace`, `lines`, `starts_with`, `trim_ascii_start`, ASCII
    lower-casing, and the byte-wise ordering `Ord for str`. */
module Text {
  import opened Wrappers

  /** `pat` occurs in `s` starting at index `i`. */
  predicate OccursAt(s: string, pat: string, i: nat)
  {
    i + |pat| <= |s| && s[i..i + |pat|] == pat
  }

  /** Leftmost occurrence of `pat` in `s` at or after index `from`. */
  function FindFrom(s: string, pat: string, from: nat): (r: Option<nat>)
    decreases |s| - from
    ensures r.Some? ==> from <= r.value && r.value + |pat| <= |s|
  {
    if from + |pat| > |s| then None
    else if s[from..from + |pat|] == pat then Some(from)
    else FindFrom(s, pat, from + 1)
  }

  /** `FindFrom` finds the leftmost occurrence at or after `from`. */
  lemma {:induction false} FindFromSpec(s: string, pat: string, from: nat)
    decreases |s| - from
    ensures var r := FindFrom(s, pat, from);
      (r.Some? ==> from <= r.value && OccursAt(s, pat, r.value))
      && (r.Some? ==> forall j :: from <= j < r.value ==> !OccursAt(s, pat, j))
      && (r.None? ==> forall j :: from <= j ==> !OccursAt(s, pat, j))
  {
    if from + |pat| <= |s| && s[from..from + |pat|] != pat {
      FindFromSpec(s, pat, from + 1);
    }
  }

  /** `Find` finds the leftmost occurrence. */
  lemma FindSpec(s: string, pat: string)
    ensures var r := Find(s, pat);
      (r.Some? ==> OccursAt(s, pat, r.value))
      && (r.Some? ==> forall j :: 0 <= j < r.value ==> !OccursAt(s, pat, j))
      && (r.None? ==> forall j :: 0 <= j ==> !OccursAt(s, pat, j))
  {
    FindFromSpec(s, pat, 0);
  }

  /** An occurrence at `i` means `find` succeeds, at `i` or before. */
  lemma FindAtMost(s: string, pat: string, i: nat)
    requires OccursAt(s, pat, i)
    ensures Find(s, pat).Some? && Find(s, pat).value <= i
  {
    FindSpec(s, pat);
  }

  /** `find` reports an occurrence. */
  lemma FindOccurs(s: string, pat: string)
    requires Find(s, pat).Some?
    ensures OccursAt(s, pat, Find(s, pat).value)
  {
    FindSpec(s, pat);
  }

  /** `str::find`: the leftmost occurrence of `pat`. */
  function Find(s: string, pat: string): Option<nat>
  {
    FindFrom(s, pat, 0)
  }

  /** `str::contains`. */
  predicate Contains(s: string, pat: string)
  {
    Find(s, pat).Some?
  }

  predicate StartsWith(s: string, prefix: string)
  {
    |prefix| <= |s| && s[..|prefix|] == prefix
  }

  /** `str::split` with a non-empty pattern: the pieces between the
      non-overlapping occurrences of `sep`, found from left to right. */
  function Split(s: string, sep: string): (parts: seq<string>)
    requires sep != []
    decreases |s|
    ensures |parts| >= 1
  {
    match Find(s, sep)
    case None => [s]
    case Some(i) => [s[..i]] + Split(s[i + |sep|..], sep)
  }

  /** `[&str]::join`. */
  function Join(parts: seq<string>, sep: string): string
  {
    if |parts| == 0 then ""
    else if |parts| == 1 then parts[0]
    else parts[0] + sep + Join(parts[1..], sep)
  }

  /** Joining the pieces of a split with the same separator gives back the
      original string. */
  lemma {:induction false} SplitJoin(s: string, sep: string)
    requires sep != []
    ensures Join(Split(s, sep), sep) == s
    decreases |s|
  {
    match Find(s, sep)
    case None =>
    case Some(i) =>
      var rest := s[i + |sep|..];
      var parts := Split(rest, sep);
      FindSpec(s, sep);
      SplitJoin(rest, sep);
      JoinCons(s[..i], parts, sep);
      assert s == s[..i] + sep + rest;
  }

  lemma JoinCons(head: string, parts: seq<string>, sep: string)
    requires parts != []
    ensures Join([head] + parts, sep) == head + sep + Join(parts, sep)
  {
    assert ([head] + parts)[1..] == parts;
  }

  /** A prefix of `s` that ends before the first occurrence of `pat` does not
      contain `pat`. */
  lemma PrefixBeforeFind(s: string, pat: string, i: nat)
    requires pat != []
    requires Find(s, pat) == Some(i)
    ensures !Contains(s[..i], pat)
  {
    var p := s[..i];
    FindSpec(s, pat);
    FindSpec(p, pat);
    if Find(p, pat).Some? {
      var j := Find(p, pat).value;
      assert j < i && p[j..j + |pat|] == s[j..j + |pat|];
      assert OccursAt(s, pat, j);
      assert false;
    }
  }

  /** No piece of a split contains the separator. */
  lemma {:induction false} SplitPiecesFree(s: string, sep: string)
    requires sep != []
    ensures forall k :: 0 <= k < |Split(s, sep)| ==> !Contains(Split(s, sep)[k], sep)
    decreases |s|
  {
    match Find(s, sep)
    case None =>
    case Some(i) =>
      PrefixBeforeFind(s, sep, i);
      SplitPiecesFree(s[i + |sep|..], sep);
  }

  /** The first piece of a split is the text before the first separator. */
  lemma SplitHead(s: string, sep: string)
    requires sep != []
    ensures Find(s, sep).None? ==> Split(s, sep) == [s]
    ensures Find(s, sep).Some? ==> Split(s, sep)[0] == s[..Find(s, sep).value]
  {
  }

  /** The pieces after the first one, joined back with the separator, are the
      text after the first separator ("" when there is none): this is how
      `key=value` keeps every `=` after the first. */
  lemma AfterFirstSeparator(s: string, sep: string)
    requires sep != []
    ensures Find(s, sep).None? ==> Join(Split(s, sep)[1..], sep) == ""
    ensures Find(s, sep).Some? ==>
      Join(Split(s, sep)[1..], sep) == s[Find(s, sep).value + |sep|..]
  {
    match Find(s, sep)
    case None =>
    case Some(i) =>
      var rest := s[i + |sep|..];
      assert Split(s, sep)[1..] == Split(rest, sep);
      SplitJoin(rest, sep);
  }

  /** The text strictly between the first occurrence of `sep` and the next
      one (or the end). */
  function SectionAfter(s: string, sep: string): (r: string)
    requires Contains(s, sep)
    ensures Find(s, sep).value + |sep| + |r| <= |s|
  {
    var rest := s[Find(s, sep).value + |sep|..];
    if Find(rest, sep).None? then rest else rest[..Find(rest, sep).value]
  }

  /** The second piece of a split, when there is one, is the text strictly
      between the first and the second separator (or the end). */
  lemma SecondPiece(s: string, sep: string)
    requires sep != []
    requires Find(s, sep).Some?
    ensures |Split(s, sep)| >= 2
    ensures var rest := s[Find(s, sep).value + |sep|..];
      Split(s, sep)[1] == (if Find(rest, sep).None? then rest else rest[..Find(rest, sep).value])
    ensures Split(s, sep)[1] == SectionAfter(s, sep)
  {
  }

  /** `s.split(sep).nth(1)`: the piece between the first and the second
      separator, if the separator occurs. */
  function SecondField(s: string, sep: string): (r: Option<string>)
    requires sep != []
  {
    var parts := Split(s, sep);
    if |parts| >= 2 then Some(parts[1]) else None
  }

  /** Joining two non-empty lists of pieces puts one separator between them. */
  lemma {:induction false} JoinAppend(a: seq<string>, b: seq<string>, sep: string)
    requires a != [] && b != []
    ensures Join(a + b, sep) == Join(a, sep) + sep + Join(b, sep)
    decreases |a|
  {
    if |a| == 1 {
      assert a + b == [a[0]] + b;
      JoinCons(a[0], b, sep);
    } else {
      assert a + b == [a[0]] + (a[1..] + b);
      JoinCons(a[0], a[1..] + b, sep);
      JoinAppend(a[1..], b, sep);
      JoinCons(a[0], a[1..], sep);
      assert a == [a[0]] + a[1..];
    }
  }

  /** A split has a second piece exactly when the separator occurs. */
  lemma SplitCount(s: string, sep: string)
    requires sep != []
    ensures |Split(s, sep)| >= 2 <==> Contains(s, sep)
  {
  }

  /** A one-character pattern does not occur in a string without that
      character. */
  lemma FindCharAbsent(a: string, c: char)
    requires c !in a
    ensures Find(a, [c]).None?
  {
    FindSpec(a, [c]);
    forall k | 0 <= k
      ensures !OccursAt(a, [c], k)
    {
      if k < |a| {
        assert a[k] in a;
      }
    }
  }

  /** The first `c` in `a + [c] + rest` is the one right after `a` when `a`
      has none. */
  lemma FindCharAfter(a: string, c: char, rest: string)
    requires c !in a
    ensures Find(a + [c] + rest, [c]) == Some(|a|)
  {
    var s := a + [c] + rest;
    FindSpec(s, [c]);
    assert OccursAt(s, [c], |a|) by {
      assert s[|a|..|a| + 1] == [c];
    }
    forall k | 0 <= k < |a|
      ensures !OccursAt(s, [c], k)
    {
      assert s[k] == a[k] && a[k] in a;
    }
  }

  /** The first occurrence of `pat` in `a + pat + rest` is the one right
      after `a` when `a` lacks the first character of `pat`. */
  lemma FindAfterPrefix(a: string, pat: string, rest: string)
    requires pat != [] && pat[0] !in a
    ensures Find(a + pat + rest, pat) == Some(|a|)
  {
    var s := a + pat + rest;
    FindSpec(s, pat);
    assert OccursAt(s, pat, |a|) by {
      assert s[|a|..|a| + |pat|] == pat;
    }
    forall k | 0 <= k < |a|
      ensures !OccursAt(s, pat, k)
    {
      assert s[k] == a[k] && a[k] in a;
    }
  }

  /** A pattern does not occur in a string that lacks one of its
      characters. */
  lemma FindMissingChar(s: string, pat: string, i: nat)
    requires i < |pat| && pat[i] !in s
    ensures Find(s, pat).None?
  {
    FindSpec(s, pat);
  }

  /** A character in neither the pieces nor the separator is not in their
      join. */
  lemma {:induction false} JoinLacks(parts: seq<string>, sep: string, c: char)
    requires c !in sep
    requires forall k :: 0 <= k < |parts| ==> c !in parts[k]
    ensures c !in Join(parts, sep)
    decreases |parts|
  {
    if |parts| > 1 {
      JoinLacks(parts[1..], sep, c);
      assert Join(parts, sep) == parts[0] + sep + Join(parts[1..], sep);
      assert c !in parts[0];
    } else if |parts| == 1 {
      assert c !in parts[0];
    }
  }

  /** For a one-character separator that no piece contains, splitting undoes
      joining. */
  lemma {:induction false} JoinSplitChar(parts: seq<string>, c: char)
    requires parts != []
    requires forall k :: 0 <= k < |parts| ==> c !in parts[k]
    ensures Split(Join(parts, [c]), [c]) == parts
    decreases |parts|
  {
    if |parts| == 1 {
      FindCharAbsent(parts[0], c);
    } else {
      var rest := Join(parts[1..], [c]);
      var s := parts[0] + [c] + rest;
      assert Join(parts, [c]) == s;
      FindCharAfter(parts[0], c, rest);
      JoinSplitChar(parts[1..], c);
      assert s[|parts[0]| + 1..] == rest;
      assert s[..|parts[0]|] == parts[0];
      assert Split(s, [c]) == [s[..|parts[0]|]] + Split(s[|parts[0]| + 1..], [c]);
      assert parts == [parts[0]] + parts[1..];
    }
  }

  /** A one-character pattern occurs exactly when its character does. */
  lemma ContainsChar(s: string, c: char)
    ensures Contains(s, [c]) <==> c in s
  {
    if c in s {
      var k :| 0 <= k < |s| && s[k] == c;
      FindSpec(s, [c]);
      assert OccursAt(s, [c], k) by {
        assert s[k..k + 1] == [c];
      }
    } else {
      FindCharAbsent(s, c);
    }
  }

  /** Splitting undoes joining when no piece holds the separator's first
      character. */
  lemma {:induction false} JoinSplit(parts: seq<string>, sep: string)
    requires sep != [] && parts != []
    requires forall k :: 0 <= k < |parts| ==> sep[0] !in parts[k]
    ensures Split(Join(parts, sep), sep) == parts
    decreases |parts|
  {
    if |parts| == 1 {
      FindMissingChar(parts[0], sep, 0);
    } else {
      var rest := Join(parts[1..], sep);
      assert Join(parts, sep) == parts[0] + sep + rest;
      SplitAfterHead(parts[0], sep, rest);
      JoinSplit(parts[1..], sep);
      assert parts == [parts[0]] + parts[1..];
    }
  }

  /** The first piece of `head + sep + rest` is `head` when `head` lacks the
      separator's first character. */
  lemma SplitAfterHead(head: string, sep: string, rest: string)
    requires sep != [] && sep[0] !in head
    ensures Split(head + sep + rest, sep) == [head] + Split(rest, sep)
  {
    var s := head + sep + rest;
    FindAfterPrefix(head, sep, rest);
    assert s[|head| + |sep|..] == rest;
    assert s[..|head|] == head;
  }

  /** Text appended to a join belongs to its last piece. */
  lemma {:induction false} JoinExtendLast(parts: seq<string>, sep: string, x: string)
    requires parts != []
    ensures Join(parts[..|parts| - 1] + [parts[|parts| - 1] + x], sep) == Join(parts, sep) + x
    decreases |parts|
  {
    var extended := parts[..|parts| - 1] + [parts[|parts| - 1] + x];
    if |parts| > 1 {
      JoinExtendLast(parts[1..], sep, x);
      assert extended[1..] == parts[1..][..|parts[1..]| - 1] + [parts[1..][|parts[1..]| - 1] + x];
    }
  }

  /** Every piece of a split is made of characters of the whole. */
  lemma {:induction false} SplitPiecesWithin(s: string, sep: string, c: char)
    requires sep != []
    requires c !in s
    ensures forall k :: 0 <= k < |Split(s, sep)| ==> c !in Split(s, sep)[k]
    decreases |s|
  {
    match Find(s, sep)
    case None =>
    case Some(i) =>
      var rest := s[i + |sep|..];
      assert c !in s[..i] by {
        forall k | 0 <= k < i
          ensures s[..i][k] != c
        {
          assert s[k] in s;
        }
      }
      assert c !in rest by {
        forall k | 0 <= k < |rest|
          ensures rest[k] != c
        {
          assert s[i + |sep| + k] in s;
        }
      }
      SplitPiecesWithin(rest, sep, c);
  }

  /** `u8::is_ascii_whitespace`: space, tab, line feed, form feed, carriage
      return (not the vertical tab). */
  predicate IsAsciiSpace(c: char)
  {
    c == ' ' || c == '\t' || c == '\n' || c == '\U{000C}' || c == '\r'
  }

  /** `char::is_whitespace`: the Unicode White_Space property. */
  predicate IsUnicodeSpace(c: char)
  {
    ('\t' <= c <= '\r') || c == ' ' || c == '\U{0085}' || c == '\U{00A0}' || c == '\U{1680}'
    || ('\U{2000}' <= c <= '\U{200A}') || c == '\U{2028}' || c == '\U{2029}'
    || c == '\U{202F}' || c == '\U{205F}' || c == '\U{3000}'
  }

  /** Length of the run of non-space characters at the start of `s`. */
  function WordLength(s: string, isSpace: char -> bool): (n: nat)
    ensures n <= |s|
  {
    if s == [] || isSpace(s[0]) then 0 else 1 + WordLength(s[1..], isSpace)
  }

  /** The run is maximal: none of its characters is a space, and it ends at
      a space or at the end of `s`. */
  lemma {:induction false} WordLengthSpec(s: string, isSpace: char -> bool)
    ensures var n := WordLength(s, isSpace);
      (forall k :: 0 <= k < n ==> !isSpace(s[k])) && (n < |s| ==> isSpace(s[n]))
  {
    if s != [] && !isSpace(s[0]) {
      WordLengthSpec(s[1..], isSpace);
    }
  }

  /** `split_whitespace` / `split_ascii_whitespace`: the maximal runs of
      non-space characters, in order. */
  function Tokens(s: string, isSpace: char -> bool): seq<string>
    decreases |s|
  {
    if s == [] then []
    else if isSpace(s[0]) then Tokens(s[1..], isSpace)
    else
      var n := WordLength(s, isSpace);
      [s[..n]] + Tokens(s[n..], isSpace)
  }

  /** A token: not empty, and without a space. */
  predicate IsToken(t: string, isSpace: char -> bool)
  {
    t != [] && forall c :: c in t ==> !isSpace(c)
  }

  /** Tokens are never empty and never contain a space. */
  lemma {:induction false} TokensSpec(s: string, isSpace: char -> bool)
    decreases |s|
    ensures var r := Tokens(s, isSpace);
      forall k :: 0 <= k < |r| ==> IsToken(r[k], isSpace)
  {
    if s != [] {
      if isSpace(s[0]) {
        TokensSpec(s[1..], isSpace);
        assert Tokens(s, isSpace) == Tokens(s[1..], isSpace);
      } else {
        var n := WordLength(s, isSpace);
        WordLengthSpec(s, isSpace);
        TokensSpec(s[n..], isSpace);
        assert IsToken(s[..n], isSpace);
        var r := Tokens(s, isSpace);
        assert r == [s[..n]] + Tokens(s[n..], isSpace);
        forall k | 0 <= k < |r|
          ensures IsToken(r[k], isSpace)
        {
          if k > 0 {
            assert r[k] == Tokens(s[n..], isSpace)[k - 1];
          }
        }
      }
    }
  }

  /** A token followed by a space, or by nothing, is one whole word. */
  lemma {:induction false} WordLengthOfToken(w: string, rest: string, isSpace: char -> bool)
    requires IsToken(w, isSpace)
    requires rest == [] || isSpace(rest[0])
    ensures WordLength(w + rest, isSpace) == |w|
    decreases |w|
  {
    var s := w + rest;
    assert s[0] == w[0] && w[0] in w;
    if |w| > 1 {
      assert s[1..] == w[1..] + rest;
      assert forall c :: c in w[1..] ==> c in w;
      WordLengthOfToken(w[1..], rest, isSpace);
    } else {
      assert s[1..] == rest;
    }
  }

  /** A token followed by a space, or by nothing, is the first token. */
  lemma TokensOfWordThen(w: string, rest: string, isSpace: char -> bool)
    requires IsToken(w, isSpace)
    requires rest == [] || isSpace(rest[0])
    ensures Tokens(w + rest, isSpace) == [w] + Tokens(rest, isSpace)
  {
    var s := w + rest;
    assert w[0] in w;
    WordLengthOfToken(w, rest, isSpace);
    assert s[0] == w[0];
    assert s[..|w|] == w;
    assert s[|w|..] == rest;
  }

  /** A leading space yields no token. */
  lemma TokensAfterSpace(rest: string, isSpace: char -> bool)
    requires isSpace(' ')
    ensures Tokens(" " + rest, isSpace) == Tokens(rest, isSpace)
  {
    assert (" " + rest)[1..] == rest;
  }

  /** Splitting on whitespace undoes joining tokens with single spaces. */
  lemma {:induction false} TokensOfJoin(ws: seq<string>, isSpace: char -> bool)
    requires isSpace(' ')
    requires forall k :: 0 <= k < |ws| ==> IsToken(ws[k], isSpace)
    ensures Tokens(Join(ws, " "), isSpace) == ws
    decreases |ws|
  {
    if ws != [] {
      var w := ws[0];
      assert IsToken(w, isSpace);
      if |ws| == 1 {
        TokensOfWordThen(w, [], isSpace);
        assert w + [] == w;
      } else {
        var rest := Join(ws[1..], " ");
        assert Join(ws, " ") == w + (" " + rest);
        TokensOfWordThen(w, " " + rest, isSpace);
        TokensAfterSpace(rest, isSpace);
        TokensOfJoin(ws[1..], isSpace);
        assert ws == [w] + ws[1..];
      }
    }
  }

  /** Drops one `\r` at the end of a line. */
  function StripCr(line: string): string
  {
    if |line| > 0 && line[|line| - 1] == '\r' then line[..|line| - 1] else line
  }

  /** `str::lines`: pieces between `\n`, each without a `\r` right before its
      `\n`; a final empty piece (input ending in `\n`, or empty input) is not
      a line, and a `\r` at the very end is kept. */
  function Lines(s: string): (r: seq<string>)
  {
    var pieces := Split(s, "\n");
    var body := seq(|pieces| - 1, i requires 0 <= i < |pieces| - 1 => StripCr(pieces[i]));
    if pieces[|pieces| - 1] == "" then body else body + [pieces[|pieces| - 1]]
  }

  /** `str::trim_ascii_start`. */
  function TrimAsciiStart(s: string): (r: string)
    ensures |r| <= |s| && r == s[|s| - |r|..]
    ensures r == [] || !IsAsciiSpace(r[0])
  {
    if s != [] && IsAsciiSpace(s[0]) then TrimAsciiStart(s[1..]) else s
  }

  function LowerChar(c: char): char
  {
    if 'A' <= c <= 'Z' then (c as int + 32) as char else c
  }

  /** ASCII lower-casing, character by character. */
  function AsciiLower(s: string): (r: string)
    ensures |r| == |s|
  {
    seq(|s|, i requires 0 <= i < |s| => LowerChar(s[i]))
  }

  /** The elements of `s` in the opposite order (`Iterator::rev`,
      `Vec::reverse`). */
  function Reverse<T>(s: seq<T>): (r: seq<T>)
    ensures |r| == |s|
  {
    seq(|s|, i requires 0 <= i < |s| => s[|s| - 1 - i])
  }

  /** Position `k` of the reversal is position `|s| - 1 - k` of `s`. */
  lemma ReverseAt<T>(s: seq<T>, k: int)
    requires 0 <= k < |s|
    ensures Reverse(s)[k] == s[|s| - 1 - k]
  {
  }

  /** `filter(|line| !line.is_empty())`. */
  function NonEmpty(ss: seq<string>): seq<string>
  {
    if ss == [] then []
    else if ss[0] == [] then NonEmpty(ss[1..])
    else [ss[0]] + NonEmpty(ss[1..])
  }

  /** `filter(|line| !line.is_empty())` keeps exactly the non-empty lines,
      in order. */
  lemma {:induction false} NonEmptySpec(ss: seq<string>)
    ensures forall k :: 0 <= k < |NonEmpty(ss)| ==> NonEmpty(ss)[k] != [] && NonEmpty(ss)[k] in ss
    ensures forall x :: x in ss && x != [] ==> x in NonEmpty(ss)
  {
    if ss != [] {
      NonEmptySpec(ss[1..]);
      var r := NonEmpty(ss);
      var rest := NonEmpty(ss[1..]);
      if ss[0] == [] {
        assert r == rest;
      } else {
        assert r == [ss[0]] + rest;
        forall k | 0 <= k < |r|
          ensures r[k] != [] && r[k] in ss
        {
          if k > 0 {
            assert r[k] == rest[k - 1];
          }
        }
      }
      assert ss == [ss[0]] + ss[1..];
    }
  }

  /** `Ord for str`: lexicographic order of the characters (the same as the
      order of the UTF-8 bytes). */
  predicate LexLe(a: string, b: string)
  {
    a == [] || (b != [] && (a[0] < b[0] || (a[0] == b[0] && LexLe(a[1..], b[1..]))))
  }

  lemma {:induction false} LexLeTotal(a: string, b: string)
    ensures LexLe(a, b) || LexLe(b, a)
  {
    if a != [] && b != [] && a[0] == b[0] {
      LexLeTotal(a[1..], b[1..]);
    }
  }

  lemma {:induction false} LexLeTransitive(a: string, b: string, c: string)
    requires LexLe(a, b) && LexLe(b, c)
    ensures LexLe(a, c)
  {
    if a != [] && b != [] && c != [] && a[0] == b[0] && b[0] == c[0] {
      LexLeTransitive(a[1..], b[1..], c[1..]);
    }
  }

  lemma {:induction false} LexLeAntisymmetric(a: string, b: string)
    requires LexLe(a, b) && LexLe(b, a)
    ensures a == b
  {
    if a != [] && b != [] {
      LexLeAntisymmetric(a[1..], b[1..]);
      assert a == [a[0]] + a[1..];
      assert b == [b[0]] + b[1..];
    }
  }
}
