/**
  String helpers that model the handful of Python `str` operations the
  acquisition pipeline relies on: `lower()`, whitespace `split()`,
  `split(sep)`, `join`, `replace`, `strip()`, slicing and lexicographic
  comparison. Characters are treated as ASCII: lower-casing, `isalnum()`
  and the whitespace class are the ASCII versions.
 */
module Text {

  // ---------------------------------------------------------------------------
  // Character classes
  // ---------------------------------------------------------------------------

  /** The ASCII characters `str.split()` treats as whitespace: space, \t, \n, \v, \f, \r and the separators \x1c to \x1f. */
  predicate IsSpace(c: char) {
    c == ' ' || c == '\t' || c == '\n' || c == '\r' || c == '\U{000B}' || c == '\U{000C}'
    || ('\U{001C}' <= c <= '\U{001F}')
  }

  predicate IsUpper(c: char) { 'A' <= c <= 'Z' }

  predicate IsAlnum(c: char) {
    ('a' <= c <= 'z') || ('A' <= c <= 'Z') || ('0' <= c <= '9')
  }

  function LowerChar(c: char): (r: char)
    ensures IsUpper(c) ==> r as int == c as int + 32
    ensures !IsUpper(c) ==> r == c
  {
    if IsUpper(c) then (c as int + 32) as char else c
  }

  /** `s.lower()` */
  function Lower(s: string): (r: string)
    ensures |r| == |s|
    ensures forall i :: 0 <= i < |s| ==> r[i] == LowerChar(s[i])
  {
    seq(|s|, i requires 0 <= i < |s| => LowerChar(s[i]))
  }

  predicate IsLowered(s: string) {
    forall i :: 0 <= i < |s| ==> !IsUpper(s[i])
  }

  lemma LowerIsLowered(s: string)
    ensures IsLowered(Lower(s))
    ensures forall i :: 0 <= i < |s| ==> (IsSpace(Lower(s)[i]) <==> IsSpace(s[i]))
  {
  }

  lemma LowerOfLowered(s: string)
    requires IsLowered(s)
    ensures Lower(s) == s
  {
  }

  predicate NoSpace(s: string) {
    forall i :: 0 <= i < |s| ==> !IsSpace(s[i])
  }

  // ---------------------------------------------------------------------------
  // Joining and splitting
  // ---------------------------------------------------------------------------

  /** `sep.join(ws)` */
  function Join(ws: seq<string>, sep: string): string
  {
    if |ws| == 0 then "" else if |ws| == 1 then ws[0] else ws[0] + sep + Join(ws[1..], sep)
  }

  lemma JoinLength(ws: seq<string>, sep: string)
    requires |ws| > 0
    ensures |Join(ws, sep)| >= |ws[0]|
  {
  }

  /** True when `s` begins with `p` (`s.startswith(p)`). */
  predicate StartsWith(s: string, p: string) {
    |p| <= |s| && s[..|p|] == p
  }

  predicate EndsWith(s: string, p: string) {
    |p| <= |s| && s[|s| - |p|..] == p
  }

  /** `p in s` for strings. */
  predicate Contains(s: string, p: string)
    decreases |s|
  {
    StartsWith(s, p) || (|s| > 0 && Contains(s[1..], p))
  }

  /**
    `s.split(p)` for a non-empty separator: a left-to-right scan that
    cuts at every non-overlapping occurrence of `p`.
   */
  function SplitStr(s: string, p: string): (r: seq<string>)
    requires |p| > 0
    ensures |r| >= 1
    decreases |s|
  {
    if |s| < |p| then [s]
    else if s[..|p|] == p then [""] + SplitStr(s[|p|..], p)
    else
      var rest := SplitStr(s[1..], p);
      [[s[0]] + rest[0]] + rest[1..]
  }

  /** `s.split(c)` for a one-character separator. */
  function SplitOn(s: string, c: char): seq<string>
  {
    SplitStr(s, [c])
  }

  /** `s.replace(p, r)`: every piece between occurrences of `p`, re-joined with `r`. */
  function ReplaceAll(s: string, p: string, r: string): string
    requires |p| > 0
  {
    Join(SplitStr(s, p), r)
  }

  /** `s.split(p)[-1]`: the text after the last cut. */
  function LastPiece(s: string, p: string): string
    requires |p| > 0
  {
    var parts := SplitStr(s, p);
    parts[|parts| - 1]
  }

  /** `s.split(p)[0]`: the text before the first cut. */
  function FirstPiece(s: string, p: string): string
    requires |p| > 0
  {
    SplitStr(s, p)[0]
  }

  lemma JoinCons(w: string, ws: seq<string>, sep: string)
    requires |ws| > 0
    ensures Join([w] + ws, sep) == w + sep + Join(ws, sep)
  {
    assert ([w] + ws)[1..] == ws;
  }

  lemma JoinGlue(c: char, ws: seq<string>, sep: string)
    requires |ws| > 0
    ensures Join([[c] + ws[0]] + ws[1..], sep) == [c] + Join(ws, sep)
  {
    if |ws| > 1 {
      JoinCons([c] + ws[0], ws[1..], sep);
      JoinCons(ws[0], ws[1..], sep);
      assert [ws[0]] + ws[1..] == ws;
    }
  }

  /** A piece of a split never contains a character of a one-char separator. */
  lemma {:induction false} SplitOnPiecesFree(s: string, c: char)
    ensures forall k :: 0 <= k < |SplitOn(s, c)| ==> c !in SplitOn(s, c)[k]
    decreases |s|
  {
    if |s| >= 1 && s[..1] != [c] {
      SplitOnPiecesFree(s[1..], c);
      var rest := SplitOn(s[1..], c);
      assert s[0] != c;
      assert SplitOn(s, c) == [[s[0]] + rest[0]] + rest[1..];
    } else if |s| >= 1 {
      SplitOnPiecesFree(s[1..], c);
      assert SplitOn(s, c) == [""] + SplitOn(s[1..], c);
    }
  }

  /** Splitting on `c` and joining with `c` gives back the original string. */
  lemma {:induction false} SplitOnJoin(s: string, c: char)
    ensures Join(SplitOn(s, c), [c]) == s
    decreases |s|
  {
    if |s| == 0 {
    } else if s[..1] == [c] {
      SplitOnJoin(s[1..], c);
      JoinCons("", SplitOn(s[1..], c), [c]);
      assert s == [c] + s[1..];
    } else {
      SplitOnJoin(s[1..], c);
      JoinGlue(s[0], SplitOn(s[1..], c), [c]);
      assert s == [s[0]] + s[1..];
    }
  }

  /** There is more than one piece exactly when the separator occurs. */
  lemma {:induction false} SplitOnCount(s: string, c: char)
    ensures |SplitOn(s, c)| > 1 <==> c in s
    decreases |s|
  {
    if |s| == 0 {
    } else if s[..1] == [c] {
      assert s[0] == c;
    } else {
      SplitOnCount(s[1..], c);
      assert s[0] != c;
      assert c in s <==> c in s[1..] by {
        assert s == [s[0]] + s[1..];
      }
    }
  }

  /** Joining pieces free of `c` with `c` and splitting again returns the pieces. */
  lemma {:induction false} JoinSplitOn(ws: seq<string>, c: char)
    requires |ws| > 0
    requires forall k :: 0 <= k < |ws| ==> c !in ws[k]
    ensures SplitOn(Join(ws, [c]), c) == ws
    decreases |ws|, |ws[0]|
  {
    if |ws[0]| == 0 {
      if |ws| == 1 {
      } else {
        JoinCons(ws[0], ws[1..], [c]);
        var s := Join(ws, [c]);
        assert s == [c] + Join(ws[1..], [c]);
        assert s[..1] == [c];
        assert s[1..] == Join(ws[1..], [c]);
        JoinSplitOn(ws[1..], c);
        assert [ws[0]] + ws[1..] == ws;
      }
    } else {
      var w := ws[0];
      var ws' := [w[1..]] + ws[1..];
      forall k | 0 <= k < |ws'| ensures c !in ws'[k] {
        if k == 0 {
          assert forall x :: x in w[1..] ==> x in w;
        }
      }
      JoinSplitOn(ws', c);
      assert w == [w[0]] + w[1..];
      assert w[0] != c;
      JoinGlue(w[0], ws', [c]);
      assert [[w[0]] + ws'[0]] + ws'[1..] == ws;
      var s := Join(ws, [c]);
      assert s == [w[0]] + Join(ws', [c]);
      assert s[1..] == Join(ws', [c]);
      assert s[..1] != [c];
    }
  }

  /** A character absent from every piece and from the separator is absent from the join. */
  lemma {:induction false} JoinFree(ws: seq<string>, sep: string, c: char)
    requires c !in sep
    requires forall k :: 0 <= k < |ws| ==> c !in ws[k]
    ensures c !in Join(ws, sep)
    decreases |ws|
  {
    if |ws| > 1 {
      JoinFree(ws[1..], sep, c);
      assert Join(ws, sep) == ws[0] + sep + Join(ws[1..], sep);
    }
  }

  /** `s.replace(c, r)` leaves no `c` behind when `r` has none. */
  lemma ReplaceRemoves(s: string, c: char, r: string)
    requires c !in r
    ensures c !in ReplaceAll(s, [c], r)
  {
    SplitOnPiecesFree(s, c);
    JoinFree(SplitOn(s, c), r, c);
  }

  /** Without an occurrence of `p`, `s.split(p)` is `[s]`. */
  lemma {:induction false} SplitStrNoMatch(s: string, p: string)
    requires |p| > 0 && !Contains(s, p)
    ensures SplitStr(s, p) == [s]
    decreases |s|
  {
    if |s| >= |p| {
      SplitStrNoMatch(s[1..], p);
      assert [s[0]] + s[1..] == s;
    }
  }

  /** `s.split(c)[0]` is the prefix of `s` up to the first `c`, or all of `s` when there is none. */
  lemma {:induction false} FirstPieceIsPrefix(s: string, c: char)
    ensures var r := FirstPiece(s, [c]);
      && StartsWith(s, r) && c !in r
      && (|r| == |s| || s[|r|] == c)
    decreases |s|
  {
    if |s| >= 1 && s[..1] != [c] {
      FirstPieceIsPrefix(s[1..], c);
      var rest := SplitStr(s[1..], [c]);
      assert SplitStr(s, [c]) == [[s[0]] + rest[0]] + rest[1..];
      var r := [s[0]] + rest[0];
      assert s[..|r|] == [s[0]] + s[1..][..|rest[0]|];
      if |r| < |s| {
        assert s[|r|] == s[1..][|rest[0]|];
      }
    }
  }

  /** One step of replacing a single character: the first character is mapped, the rest replaced in turn. */
  lemma ReplaceCharStep(s: string, c: char, d: char)
    requires |s| > 0
    ensures ReplaceAll(s, [c], [d]) == [if s[0] == c then d else s[0]] + ReplaceAll(s[1..], [c], [d])
  {
    var rest := SplitStr(s[1..], [c]);
    if s[..1] == [c] {
      assert SplitStr(s, [c]) == [""] + rest;
      JoinCons("", rest, [d]);
    } else {
      assert SplitStr(s, [c]) == [[s[0]] + rest[0]] + rest[1..];
      JoinGlue(s[0], rest, [d]);
    }
  }

  /** `s.replace(c, d)` for single characters maps every `c` to `d` and keeps every other character. */
  lemma {:induction false} ReplaceCharPointwise(s: string, c: char, d: char)
    ensures |ReplaceAll(s, [c], [d])| == |s|
    ensures forall i :: 0 <= i < |s| ==> ReplaceAll(s, [c], [d])[i] == (if s[i] == c then d else s[i])
    decreases |s|
  {
    if |s| > 0 {
      ReplaceCharStep(s, c, d);
      ReplaceCharPointwise(s[1..], c, d);
      var r := ReplaceAll(s, [c], [d]);
      forall i | 0 <= i < |s| ensures r[i] == (if s[i] == c then d else s[i]) {
        if i > 0 {
          assert r[i] == ReplaceAll(s[1..], [c], [d])[i - 1];
          assert s[i] == s[1..][i - 1];
        }
      }
    } else {
      assert SplitStr(s, [c]) == [s];
    }
  }

  /** `s.replace(p, r)` is `s` when `p` does not occur. */
  lemma ReplaceAbsent(s: string, p: string, r: string)
    requires |p| > 0 && !Contains(s, p)
    ensures ReplaceAll(s, p, r) == s
  {
    SplitStrNoMatch(s, p);
  }

  /** Deleting `p` from `p + s` deletes the leading copy and then works on `s`. */
  lemma ReplacePrefixDropped(p: string, s: string)
    requires |p| > 0
    ensures ReplaceAll(p + s, p, "") == ReplaceAll(s, p, "")
  {
    var t := p + s;
    assert t[..|p|] == p && t[|p|..] == s;
    assert SplitStr(t, p) == [""] + SplitStr(s, p);
    JoinCons("", SplitStr(s, p), "");
  }

  /** A pattern with a character that `s` lacks does not occur in `s`. */
  lemma {:induction false} MissingCharNotContained(s: string, p: string, c: char)
    requires c in p && c !in s
    ensures !Contains(s, p)
    decreases |s|
  {
    if |p| <= |s| {
      assert c !in s[..|p|];
    }
    if |s| > 0 {
      MissingCharNotContained(s[1..], p, c);
    }
  }

  /** The pieces of `s.split(p)` are made of characters of `s`. */
  lemma {:induction false} SplitStrChars(s: string, p: string, c: char)
    requires |p| > 0 && c !in s
    ensures forall k :: 0 <= k < |SplitStr(s, p)| ==> c !in SplitStr(s, p)[k]
    decreases |s|
  {
    if |s| >= |p| {
      if s[..|p|] == p {
        SplitStrChars(s[|p|..], p, c);
        var rest := SplitStr(s[|p|..], p);
        assert SplitStr(s, p) == [""] + rest;
        forall k | 0 <= k < |SplitStr(s, p)| ensures c !in SplitStr(s, p)[k] {
          if k > 0 { assert SplitStr(s, p)[k] == rest[k - 1]; }
        }
      } else {
        SplitStrChars(s[1..], p, c);
        var rest := SplitStr(s[1..], p);
        assert SplitStr(s, p) == [[s[0]] + rest[0]] + rest[1..];
        forall k | 0 <= k < |SplitStr(s, p)| ensures c !in SplitStr(s, p)[k] {
          if k > 0 { assert SplitStr(s, p)[k] == rest[k]; }
        }
      }
    }
  }

  /** Replacing cannot introduce a character found in neither `s` nor the replacement. */
  lemma ReplaceKeepsOut(s: string, p: string, r: string, c: char)
    requires |p| > 0 && c !in s && c !in r
    ensures c !in ReplaceAll(s, p, r)
  {
    SplitStrChars(s, p, c);
    JoinFree(SplitStr(s, p), r, c);
  }

  // ---------------------------------------------------------------------------
  // Whitespace split (`s.split()`) and `' '.join`
  // ---------------------------------------------------------------------------

  /** `s.lstrip()` */
  function LStrip(s: string): (r: string)
    ensures |r| <= |s| && r == s[|s| - |r|..]
    ensures |r| > 0 ==> !IsSpace(r[0])
    ensures forall i :: 0 <= i < |s| - |r| ==> IsSpace(s[i])
  {
    if |s| > 0 && IsSpace(s[0]) then LStrip(s[1..]) else s
  }

  /** `s.rstrip()` */
  function RStrip(s: string): (r: string)
    ensures |r| <= |s| && r == s[..|r|]
    ensures |r| > 0 ==> !IsSpace(r[|r| - 1])
    ensures forall i :: |r| <= i < |s| ==> IsSpace(s[i])
  {
    if |s| > 0 && IsSpace(s[|s| - 1]) then RStrip(s[..|s| - 1]) else s
  }

  /** `s.strip()` */
  function Strip(s: string): string {
    RStrip(LStrip(s))
  }

  /** Stripping only removes characters: what is left is a slice of the input. */
  lemma StripIsSlice(s: string)
    ensures |Strip(s)| <= |s|
    ensures forall i :: 0 <= i < |Strip(s)| ==> Strip(s)[i] == s[|s| - |LStrip(s)| + i]
  {
  }

  /** The longest prefix containing no whitespace. */
  function WordPrefix(s: string): (r: string)
    ensures |r| <= |s| && r == s[..|r|]
    ensures NoSpace(r)
    ensures |r| < |s| ==> IsSpace(s[|r|])
  {
    if |s| == 0 || IsSpace(s[0]) then "" else [s[0]] + WordPrefix(s[1..])
  }

  /** `s.split()`: the maximal runs of non-whitespace characters. */
  function Words(s: string): (r: seq<string>)
    ensures AreWords(r)
    decreases |s|
  {
    var t := LStrip(s);
    if |t| == 0 then []
    else
      var w := WordPrefix(t);
      assert !IsSpace(t[0]) && |w| > 0;
      var rest := Words(t[|w|..]);
      WordListCons(w, rest);
      [w] + rest
  }

  /** Non-empty whitespace-free pieces: the condition `Words` keeps. */
  predicate AreWords(ws: seq<string>) {
    forall k :: 0 <= k < |ws| ==> |ws[k]| > 0 && NoSpace(ws[k])
  }

  lemma WordListCons(w: string, rest: seq<string>)
    requires |w| > 0 && NoSpace(w) && AreWords(rest)
    ensures AreWords([w] + rest)
  {
    forall k | 0 <= k < |[w] + rest| ensures |([w] + rest)[k]| > 0 && NoSpace(([w] + rest)[k]) {
      if k > 0 {
        assert ([w] + rest)[k] == rest[k - 1];
      }
    }
  }

  /** A string with single spaces between non-empty, whitespace-free words. */
  predicate WellSpaced(s: string) {
    && (|s| > 0 ==> s[0] != ' ' && s[|s| - 1] != ' ')
    && (forall i :: 0 <= i < |s| ==> IsSpace(s[i]) ==> s[i] == ' ')
    && (forall i :: 0 <= i < |s| - 1 ==> !(s[i] == ' ' && s[i + 1] == ' '))
  }

  lemma {:induction false} JoinWordsWellSpaced(ws: seq<string>)
    requires forall k :: 0 <= k < |ws| ==> |ws[k]| > 0 && NoSpace(ws[k])
    ensures WellSpaced(Join(ws, " "))
    ensures |ws| > 0 ==> |Join(ws, " ")| > 0 && !IsSpace(Join(ws, " ")[0])
    decreases |ws|
  {
    if |ws| > 1 {
      JoinWordsWellSpaced(ws[1..]);
      JoinCons(ws[0], ws[1..], " ");
      var w, t := ws[0], Join(ws[1..], " ");
      var s := w + " " + t;
      assert Join(ws, " ") == s;
      forall i | 0 <= i < |s| - 1
        ensures !(s[i] == ' ' && s[i + 1] == ' ')
      {
        if i < |w| {
          assert s[i] == w[i];
        } else if i > |w| {
          assert s[i] == t[i - |w| - 1] && s[i + 1] == t[i - |w|];
        } else {
          assert s[i + 1] == t[0];
        }
      }
      forall i | 0 <= i < |s|
        ensures IsSpace(s[i]) ==> s[i] == ' '
      {
        if i < |w| {
          assert s[i] == w[i];
        } else if i > |w| {
          assert s[i] == t[i - |w| - 1];
        }
      }
      assert s[0] == w[0];
      assert s[|s| - 1] == t[|t| - 1];
    }
  }

  lemma JoinWordsHead(w: string, ws: seq<string>)
    requires |w| > 0 && NoSpace(w)
    requires forall k :: 0 <= k < |ws| ==> |ws[k]| > 0 && NoSpace(ws[k])
    ensures WordPrefix(Join([w] + ws, " ")) == w
    ensures Join([w] + ws, " ")[|w|..] == (if |ws| == 0 then "" else " " + Join(ws, " "))
  {
    var s := Join([w] + ws, " ");
    if |ws| > 0 {
      JoinCons(w, ws, " ");
      assert s == w + " " + Join(ws, " ");
    } else {
      assert s == w;
    }
    WordPrefixOf(w, s[|w|..]);
    assert s == w + s[|w|..];
  }

  lemma {:induction false} WordPrefixOf(w: string, rest: string)
    requires NoSpace(w)
    requires |rest| == 0 || IsSpace(rest[0])
    ensures WordPrefix(w + rest) == w
    decreases |w|
  {
    if |w| > 0 {
      WordPrefixOf(w[1..], rest);
      assert (w + rest)[1..] == w[1..] + rest;
    } else {
      assert w + rest == rest;
    }
  }

  /** Splitting a space-joined list of words gives the words back. */
  lemma {:induction false} WordsOfJoin(ws: seq<string>)
    requires forall k :: 0 <= k < |ws| ==> |ws[k]| > 0 && NoSpace(ws[k])
    ensures Words(Join(ws, " ")) == ws
    decreases |ws|
  {
    if |ws| > 0 {
      var s := Join(ws, " ");
      JoinWordsWellSpaced(ws);
      assert LStrip(s) == s;
      assert [ws[0]] + ws[1..] == ws;
      JoinWordsHead(ws[0], ws[1..]);
      WordsOfJoin(ws[1..]);
      var after := s[|ws[0]|..];
      if |ws| > 1 {
        JoinWordsWellSpaced(ws[1..]);
        assert after == " " + Join(ws[1..], " ");
        assert LStrip(after) == LStrip(Join(ws[1..], " "));
        assert Words(after) == Words(Join(ws[1..], " "));
      } else {
        assert after == "";
      }
    }
  }

  /** Every slice of a lower-cased string is lower-cased. */
  lemma LoweredSlice(s: string, i: int, j: int)
    requires IsLowered(s) && 0 <= i <= j <= |s|
    ensures IsLowered(s[i..j])
  {
    forall k | 0 <= k < j - i ensures !IsUpper(s[i..j][k]) {
      assert s[i..j][k] == s[i + k];
    }
  }

  /** The words of a lower-cased string are lower-cased. */
  lemma {:induction false} WordsLowered(s: string)
    requires IsLowered(s)
    ensures forall k :: 0 <= k < |Words(s)| ==> IsLowered(Words(s)[k])
    decreases |s|
  {
    var t := LStrip(s);
    if |t| > 0 {
      var w := WordPrefix(t);
      var rest := t[|w|..];
      LoweredSlice(s, |s| - |t|, |s|);
      LoweredSlice(t, 0, |w|);
      LoweredSlice(t, |w|, |t|);
      WordsLowered(rest);
      var ws := Words(s);
      assert ws == [w] + Words(rest);
      forall k | 0 <= k < |ws| ensures IsLowered(ws[k]) {
        if k > 0 { assert ws[k] == Words(rest)[k - 1]; }
      }
    }
  }

  /** Joining lower-cased pieces with a lower-cased separator gives a lower-cased string. */
  lemma {:induction false} JoinLowered(ws: seq<string>, sep: string)
    requires IsLowered(sep)
    requires forall k :: 0 <= k < |ws| ==> IsLowered(ws[k])
    ensures IsLowered(Join(ws, sep))
    decreases |ws|
  {
    if |ws| > 1 {
      JoinLowered(ws[1..], sep);
      var a, b := ws[0] + sep, Join(ws[1..], sep);
      forall i | 0 <= i < |a + b| ensures !IsUpper((a + b)[i]) {
        if i < |ws[0]| {
          assert (a + b)[i] == ws[0][i];
        } else if i < |a| {
          assert (a + b)[i] == sep[i - |ws[0]|];
        } else {
          assert (a + b)[i] == b[i - |a|];
        }
      }
    }
  }

  // ---------------------------------------------------------------------------
  // Slices and comparison
  // ---------------------------------------------------------------------------

  /** `s[:n]` for n >= 0 */
  function Take<T>(s: seq<T>, n: nat): (r: seq<T>)
    ensures |r| == if n < |s| then n else |s|
    ensures r == s[..|r|]
  {
    if n < |s| then s[..n] else s
  }

  /** `s[-n:]` for n > 0 */
  function TakeLast<T>(s: seq<T>, n: nat): (r: seq<T>)
    ensures |r| == if n < |s| then n else |s|
    ensures r == s[|s| - |r|..]
  {
    if n < |s| then s[|s| - n..] else s
  }

  /** Python's `a < b` on strings: lexicographic by code point. */
  predicate LexLess(a: string, b: string)
    decreases |a|
  {
    if |b| == 0 then false
    else if |a| == 0 then true
    else if a[0] != b[0] then a[0] < b[0]
    else LexLess(a[1..], b[1..])
  }

  /** Python's `a <= b` on strings. */
  predicate LexLe(a: string, b: string) {
    !LexLess(b, a)
  }

  lemma {:induction false} LexLessIrreflexive(a: string)
    ensures !LexLess(a, a)
    decreases |a|
  {
    if |a| > 0 {
      LexLessIrreflexive(a[1..]);
    }
  }

  lemma {:induction false} LexTotal(a: string, b: string)
    ensures a == b || LexLess(a, b) || LexLess(b, a)
    decreases |a|
  {
    if |a| > 0 && |b| > 0 && a[0] == b[0] {
      LexTotal(a[1..], b[1..]);
      if a[1..] == b[1..] {
        assert a == [a[0]] + a[1..] && b == [b[0]] + b[1..];
      }
    }
  }

  /** A concatenation starts with its first part and ends with its last. */
  lemma PairEnds(a: string, b: string)
    ensures StartsWith(a + b, a)
    ensures EndsWith(a + b, b)
  {
    assert (a + b)[..|a|] == a;
    assert (a + b)[|a|..] == b;
  }

  lemma ConcatEnds(a: string, b: string, c: string)
    ensures StartsWith(a + b + c, a)
    ensures EndsWith(a + b + c, c)
  {
    assert (a + b + c)[..|a|] == a;
    assert (a + b + c)[|a + b|..] == c;
  }

  /** A join starts with its first piece and ends with its last. */
  lemma {:induction false} JoinEnds(ws: seq<string>, sep: string)
    requires |ws| > 0
    ensures StartsWith(Join(ws, sep), ws[0])
    ensures EndsWith(Join(ws, sep), if |ws| > 1 then sep + ws[|ws| - 1] else ws[0])
    decreases |ws|
  {
    var j := Join(ws, sep);
    if |ws| > 1 {
      JoinEnds(ws[1..], sep);
      var rest := Join(ws[1..], sep);
      assert j == ws[0] + sep + rest;
      assert j[..|ws[0]|] == ws[0];
      var last := ws[|ws| - 1];
      assert ws[1..][|ws[1..]| - 1] == last;
      if |ws| > 2 {
        assert rest[|rest| - |sep + last|..] == sep + last;
        assert j[|j| - |sep + last|..] == rest[|rest| - |sep + last|..];
      } else {
        assert rest == last;
        assert j == ws[0] + (sep + last);
      }
    }
  }

  /** Letters and digits are not whitespace. */
  lemma AlnumNoSpace(s: string)
    requires forall i :: 0 <= i < |s| ==> IsAlnum(s[i])
    ensures NoSpace(s)
  {
  }

  lemma NoSpaceConcat(a: string, b: string)
    requires NoSpace(a) && NoSpace(b)
    ensures NoSpace(a + b)
  {
    forall i | 0 <= i < |a + b| ensures !IsSpace((a + b)[i]) {
      if i < |a| {
        assert (a + b)[i] == a[i];
      } else {
        assert (a + b)[i] == b[i - |a|];
      }
    }
  }

  /** `s.count(c)` for one character. */
  function Count(s: string, c: char): nat
  {
    if |s| == 0 then 0 else (if s[0] == c then 1 else 0) + Count(s[1..], c)
  }

  lemma {:induction false} CountAppend(a: string, b: string, c: char)
    ensures Count(a + b, c) == Count(a, c) + Count(b, c)
    decreases |a|
  {
    if |a| > 0 {
      assert (a + b)[1..] == a[1..] + b;
      CountAppend(a[1..], b, c);
    } else {
      assert a + b == b;
    }
  }

  lemma {:induction false} CountAbsent(s: string, c: char)
    requires c !in s
    ensures Count(s, c) == 0
    decreases |s|
  {
    if |s| > 0 {
      assert s[0] in s;
      assert forall x :: x in s[1..] ==> x in s;
      CountAbsent(s[1..], c);
    }
  }

  // ---------------------------------------------------------------------------
  // Paths
  // ---------------------------------------------------------------------------

  /** `os.path.join(dir, name)` (and `Path(dir) / name`) for a relative `name`. */
  function PathJoin(dir: string, name: string): (r: string)
    ensures StartsWith(r, dir) && EndsWith(r, name)
  {
    var r := if dir == "" || dir[|dir| - 1] == '/' then dir + name else dir + "/" + name;
    assert r[..|dir|] == dir;
    assert r[|r| - |name|..] == name;
    r
  }

  /** `os.path.basename(p)`: the text after the last `/`. */
  function Basename(p: string): (r: string)
    ensures '/' !in r
  {
    SplitOnPiecesFree(p, '/');
    assert SplitStr(p, "/") == SplitOn(p, '/');
    var parts := SplitStr(p, "/");
    assert '/' !in parts[|parts| - 1];
    LastPiece(p, "/")
  }

  // ---------------------------------------------------------------------------
  // Numbers
  // ---------------------------------------------------------------------------

  function DigitChar(d: nat): char
    requires d < 10
  {
    ['0', '1', '2', '3', '4', '5', '6', '7', '8', '9'][d]
  }

  /** `str(n)` for a natural number. */
  function NatToStr(n: nat): (r: string)
    ensures |r| > 0
    ensures forall i :: 0 <= i < |r| ==> '0' <= r[i] <= '9'
  {
    if n < 10 then [DigitChar(n)] else NatToStr(n / 10) + [DigitChar(n % 10)]
  }

  /** `str(i)` for an integer. */
  function IntToStr(i: int): string {
    if i < 0 then "-" + NatToStr(-i) else NatToStr(i)
  }
}
