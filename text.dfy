/** Python string operations the scripts rely on, stated over `seq<char>`. */
module Text {
  import opened Wrappers

  /** Python's `str.isspace` for a single character (also what `\s` matches). */
  predicate IsSpace(c: char)
  {
    c == ' ' || ('\t' <= c <= '\r') || ('\U{1c}' <= c <= '\U{1f}') || c == '\U{85}' || c == '\U{a0}'
    || c == '\U{1680}' || ('\U{2000}' <= c <= '\U{200a}') || c == '\U{2028}' || c == '\U{2029}'
    || c == '\U{202f}' || c == '\U{205f}' || c == '\U{3000}'
  }

  predicate IsAsciiDigit(c: char) { '0' <= c <= '9' }

  predicate IsAsciiUpper(c: char) { 'A' <= c <= 'Z' }

  predicate IsAsciiLower(c: char) { 'a' <= c <= 'z' }

  /** `c.lower()` on ASCII letters; every other character is left alone. */
  function ToLower(c: char): char
  {
    if IsAsciiUpper(c) then (c as int + 32) as char else c
  }

  /** `c.upper()` on ASCII letters; every other character is left alone. */
  function ToUpper(c: char): char
  {
    if IsAsciiLower(c) then (c as int - 32) as char else c
  }

  function Lower(s: string): (r: string)
    ensures |r| == |s| && forall i :: 0 <= i < |s| ==> r[i] == ToLower(s[i])
  {
    if s == [] then [] else [ToLower(s[0])] + Lower(s[1..])
  }

  function Upper(s: string): (r: string)
    ensures |r| == |s| && forall i :: 0 <= i < |s| ==> r[i] == ToUpper(s[i])
  {
    if s == [] then [] else [ToUpper(s[0])] + Upper(s[1..])
  }

  /** `pat` occurs in `s` starting at index `i`. */
  predicate OccursAt(s: string, pat: string, i: nat)
  {
    i + |pat| <= |s| && s[i..i + |pat|] == pat
  }

  /** Python's `pat in s`. */
  predicate Contains(s: string, pat: string)
  {
    exists i: nat | i <= |s| :: OccursAt(s, pat, i)
  }

  predicate StartsWith(s: string, pre: string)
  {
    |pre| <= |s| && s[..|pre|] == pre
  }

  /** Every character of `t` occurs in `s`. */
  predicate CharsWithin(t: string, s: string)
  {
    forall i :: 0 <= i < |t| ==> t[i] in s
  }

  // ---------------------------------------------------------------------------
  // strip

  /** `s.lstrip(chars)`, the stripped set given as a predicate. */
  function TrimStart(s: string, drop: char -> bool): (r: string)
    ensures |r| <= |s|
    ensures r != [] ==> !drop(r[0])
    ensures forall i :: 0 <= i < |s| - |r| ==> drop(s[i])
  {
    if s != [] && drop(s[0]) then TrimStart(s[1..], drop) else s
  }

  /** What `lstrip` leaves is a suffix. */
  lemma {:induction false} TrimStartSuffix(s: string, drop: char -> bool)
    ensures TrimStart(s, drop) == s[|s| - |TrimStart(s, drop)|..]
  {
    if s != [] && drop(s[0]) {
      TrimStartSuffix(s[1..], drop);
    }
  }

  /** `s.rstrip(chars)`, the stripped set given as a predicate. */
  function TrimEnd(s: string, drop: char -> bool): (r: string)
    ensures |r| <= |s|
    ensures r != [] ==> !drop(r[|r| - 1])
    ensures forall i :: |r| <= i < |s| ==> drop(s[i])
  {
    if s != [] && drop(s[|s| - 1]) then TrimEnd(s[..|s| - 1], drop) else s
  }

  /** What `rstrip` leaves is a prefix. */
  lemma {:induction false} TrimEndPrefix(s: string, drop: char -> bool)
    ensures TrimEnd(s, drop) == s[..|TrimEnd(s, drop)|]
  {
    if s != [] && drop(s[|s| - 1]) {
      TrimEndPrefix(s[..|s| - 1], drop);
    }
  }

  /** `s.strip(chars)`: the longest infix of `s` that neither starts nor ends with a stripped character. */
  function Strip(s: string, drop: char -> bool): (r: string)
    ensures |r| <= |s|
    ensures r != [] ==> !drop(r[0]) && !drop(r[|r| - 1])
  {
    var t := TrimStart(s, drop);
    TrimEndPrefix(t, drop);
    TrimEnd(t, drop)
  }

  /** What `strip` removes are stripped characters, from both ends only. */
  lemma StripInfix(s: string, drop: char -> bool)
    ensures exists k: nat :: (OccursAt(s, Strip(s, drop), k)
                              && (forall i :: 0 <= i < k ==> drop(s[i]))
                              && (forall i :: k + |Strip(s, drop)| <= i < |s| ==> drop(s[i])))
  {
    var t := TrimStart(s, drop);
    var r := Strip(s, drop);
    TrimStartSuffix(s, drop);
    TrimEndPrefix(t, drop);
    assert OccursAt(s, r, |s| - |t|);
  }

  /**
   * `s.strip()` with no argument: strip whitespace. What is removed is
   * whitespace, from both ends only, and what is left neither starts nor ends
   * with whitespace.
   */
  function StripSpace(s: string): (r: string)
    ensures CharsWithin(r, s)
    ensures r != [] ==> !IsSpace(r[0]) && !IsSpace(r[|r| - 1])
    ensures exists k: nat :: (OccursAt(s, r, k)
                              && (forall i :: 0 <= i < k ==> IsSpace(s[i]))
                              && (forall i :: k + |r| <= i < |s| ==> IsSpace(s[i])))
  {
    StripInfix(s, IsSpace);
    Strip(s, IsSpace)
  }

  lemma StripSpaceNoop(s: string)
    requires s != [] ==> !IsSpace(s[0]) && !IsSpace(s[|s| - 1])
    ensures StripSpace(s) == s
  {
  }

  // ---------------------------------------------------------------------------
  // split() and join

  /** Length of the leading run of non-whitespace characters. */
  function WordLen(s: string): (n: nat)
    ensures n <= |s|
    ensures forall i :: 0 <= i < n ==> !IsSpace(s[i])
    ensures n < |s| ==> IsSpace(s[n])
  {
    if s == [] || IsSpace(s[0]) then 0 else 1 + WordLen(s[1..])
  }

  /** A word as `str.split()` produces it: non-empty, without whitespace. */
  predicate IsWord(w: string)
  {
    w != [] && forall i :: 0 <= i < |w| ==> !IsSpace(w[i])
  }

  /** Python's `s.split()` with no argument: the maximal runs of non-whitespace characters. */
  function Words(s: string): (ws: seq<string>)
    ensures forall k :: 0 <= k < |ws| ==> IsWord(ws[k]) && CharsWithin(ws[k], s)
    decreases |s|
  {
    if s == [] then []
    else if IsSpace(s[0]) then Words(s[1..])
    else
      var n := WordLen(s);
      [s[..n]] + Words(s[n..])
  }

  /** Python's `sep.join(parts)`. */
  function Join(sep: string, parts: seq<string>): string
  {
    if parts == [] then []
    else if |parts| == 1 then parts[0]
    else parts[0] + sep + Join(sep, parts[1..])
  }

  lemma JoinCons(sep: string, p: string, rest: seq<string>)
    requires rest != []
    ensures Join(sep, [p] + rest) == p + sep + Join(sep, rest)
  {
    assert ([p] + rest)[1..] == rest;
  }

  /** Joining two non-empty lists of parts puts one separator between them. */
  lemma {:induction false} JoinConcat(sep: string, a: seq<string>, b: seq<string>)
    requires a != [] && b != []
    ensures Join(sep, a + b) == Join(sep, a) + sep + Join(sep, b)
  {
    if |a| > 1 {
      JoinConcat(sep, a[1..], b);
      assert (a + b)[1..] == a[1..] + b;
    } else {
      assert (a + b)[1..] == b;
    }
  }

  /** Joined words, separated by single spaces: what `' '.join(text.split())` yields. */
  predicate Collapsed(t: string)
  {
    (t != [] ==> !IsSpace(t[0]) && !IsSpace(t[|t| - 1]))
    && forall i :: 0 <= i < |t| && IsSpace(t[i]) ==> t[i] == ' ' && 0 < i < |t| - 1 && t[i + 1] != ' '
  }

  lemma {:induction false} JoinWordsCollapsed(ws: seq<string>)
    requires forall k :: 0 <= k < |ws| ==> IsWord(ws[k])
    ensures Collapsed(Join(" ", ws))
  {
    if |ws| > 1 {
      JoinWordsCollapsed(ws[1..]);
      var t := Join(" ", ws[1..]);
      assert Join(" ", ws) == ws[0] + " " + t;
      assert t != [] by { assert |t| >= |ws[1]| by { JoinLength(" ", ws[1..]); } }
    }
  }

  lemma {:induction false} JoinLength(sep: string, parts: seq<string>)
    requires parts != []
    ensures |Join(sep, parts)| >= |parts[0]|
    ensures |Join(sep, parts)| >= |parts[|parts| - 1]|
  {
    if |parts| > 1 {
      JoinLength(sep, parts[1..]);
    }
  }

  /** Words of a word followed by a space and more text. */
  lemma {:induction false} WordsOfWordThen(w: string, rest: string)
    requires IsWord(w)
    ensures Words(w + " " + rest) == [w] + Words(rest)
  {
    var s := w + " " + rest;
    WordLenOfWord(w, " " + rest);
    assert s[..|w|] == w;
    assert s[|w|..] == " " + rest;
    assert (" " + rest)[1..] == rest;
  }

  lemma {:induction false} WordLenOfWord(w: string, rest: string)
    requires IsWord(w)
    requires rest == [] || IsSpace(rest[0])
    ensures WordLen(w + rest) == |w|
  {
    if |w| > 1 {
      assert (w + rest)[1..] == w[1..] + rest;
      WordLenOfWord(w[1..], rest);
    } else {
      assert (w + rest)[1..] == rest;
    }
  }

  lemma {:induction false} WordsOfWord(w: string)
    requires IsWord(w)
    ensures Words(w) == [w]
  {
    WordLenOfWord(w, []);
    assert w + [] == w;
    assert w[|w|..] == [];
  }

  /** Splitting joined words gives the words back. */
  lemma {:induction false} WordsOfJoin(ws: seq<string>)
    requires forall k :: 0 <= k < |ws| ==> IsWord(ws[k])
    ensures Words(Join(" ", ws)) == ws
  {
    if |ws| == 1 {
      WordsOfWord(ws[0]);
    } else if |ws| > 1 {
      WordsOfJoin(ws[1..]);
      WordsOfWordThen(ws[0], Join(" ", ws[1..]));
    }
  }

  // ---------------------------------------------------------------------------
  // replace

  /** Python's `s.replace(pat, rep)` for a non-empty `pat`: left-to-right, non-overlapping. */
  function ReplaceAll(s: string, pat: string, rep: string): string
    requires pat != []
    decreases |s|
  {
    if |s| < |pat| then s
    else if s[..|pat|] == pat then rep + ReplaceAll(s[|pat|..], pat, rep)
    else [s[0]] + ReplaceAll(s[1..], pat, rep)
  }

  /**
   * Python's `s.replace(pat, '')`: the occurrences of `pat` found left to right,
   * without overlap, are removed; `s` is unchanged when `pat` is empty.
   */
  function Delete(s: string, pat: string): (r: string)
    ensures CharsWithin(r, s)
    ensures |r| <= |s|
    decreases |s|
  {
    if pat == [] || |s| < |pat| then s
    else if s[..|pat|] == pat then
      var rest := Delete(s[|pat|..], pat);
      assert CharsWithin(s[|pat|..], s) by {
        forall i | 0 <= i < |s| - |pat| ensures s[|pat|..][i] in s { assert s[|pat|..][i] == s[|pat| + i]; }
      }
      rest
    else [s[0]] + Delete(s[1..], pat)
  }

  /** Deleting is replacing with the empty string. */
  lemma {:induction false} DeleteIsReplaceAll(s: string, pat: string)
    requires pat != []
    ensures Delete(s, pat) == ReplaceAll(s, pat, [])
    decreases |s|
  {
    if |s| >= |pat| {
      if s[..|pat|] == pat {
        DeleteIsReplaceAll(s[|pat|..], pat);
        assert [] + ReplaceAll(s[|pat|..], pat, []) == ReplaceAll(s[|pat|..], pat, []);
      } else {
        DeleteIsReplaceAll(s[1..], pat);
      }
    }
  }

  /** A pattern whose first character does not occur before it is found only where it starts. */
  lemma {:induction false} DeleteAfterPrefix(p: string, pat: string)
    requires pat != [] && pat[0] !in p
    ensures Delete(p + pat, pat) == p
  {
    var s := p + pat;
    if p == [] {
      assert s == pat && s[|pat|..] == [];
    } else {
      assert s[0] == p[0] != pat[0];
      assert s[..|pat|] != pat by { assert s[..|pat|][0] == s[0]; }
      assert s[1..] == p[1..] + pat;
      DeleteAfterPrefix(p[1..], pat);
      assert p == [p[0]] + p[1..];
    }
  }

  /** Replacing a pattern that does not occur changes nothing. */
  lemma {:induction false} ReplaceAbsent(s: string, pat: string, rep: string)
    requires pat != [] && !Contains(s, pat)
    ensures ReplaceAll(s, pat, rep) == s
    decreases |s|
  {
    if |s| >= |pat| {
      assert !OccursAt(s, pat, 0);
      forall i: nat ensures !OccursAt(s[1..], pat, i) {
        if OccursAt(s[1..], pat, i) {
          assert s[1..][i..i + |pat|] == s[i + 1..i + 1 + |pat|];
          assert OccursAt(s, pat, i + 1);
        }
      }
      ReplaceAbsent(s[1..], pat, rep);
    }
  }

  /** No character of `s` has the property `bad`. */
  ghost predicate Avoids(s: string, bad: char -> bool)
  {
    forall i :: 0 <= i < |s| ==> !bad(s[i])
  }

  /** Joining parts that avoid `bad` with a separator that avoids it gives a string that avoids it. */
  lemma {:induction false} JoinAvoids(sep: string, parts: seq<string>, bad: char -> bool)
    requires Avoids(sep, bad)
    requires forall k :: 0 <= k < |parts| ==> Avoids(parts[k], bad)
    ensures Avoids(Join(sep, parts), bad)
  {
    if |parts| > 1 {
      JoinAvoids(sep, parts[1..], bad);
      var t := parts[0] + sep + Join(sep, parts[1..]);
      assert Join(sep, parts) == t;
      forall i | 0 <= i < |t| ensures !bad(t[i]) {
        if i < |parts[0]| {
          assert t[i] == parts[0][i];
        } else if i < |parts[0]| + |sep| {
          assert t[i] == sep[i - |parts[0]|];
        } else {
          assert t[i] == Join(sep, parts[1..])[i - |parts[0]| - |sep|];
        }
      }
    }
  }

  /** A string within one that avoids `bad` avoids it too. */
  lemma WithinAvoids(t: string, s: string, bad: char -> bool)
    requires CharsWithin(t, s) && Avoids(s, bad)
    ensures Avoids(t, bad)
  {
    forall i | 0 <= i < |t| ensures !bad(t[i]) {
      var j :| 0 <= j < |s| && s[j] == t[i];
    }
  }

  /** `s.replace(c, '')` for one character leaves no `c`. */
  lemma {:induction false} DeleteCharGone(s: string, c: char)
    ensures c !in Delete(s, [c])
    decreases |s|
  {
    if |s| >= 1 {
      DeleteCharGone(s[1..], c);
      if s[..1] == [c] {
        assert Delete(s, [c]) == Delete(s[1..], [c]);
      } else {
        assert Delete(s, [c]) == [s[0]] + Delete(s[1..], [c]);
        assert s[0] != c by { assert s[..1] == [s[0]]; }
      }
    }
  }

  // ---------------------------------------------------------------------------
  // split(sep) for a one-character separator

  function IndexOf(s: string, c: char): (r: Option<nat>)
    ensures r.None? ==> c !in s
    ensures r.Some? ==> r.value < |s| && s[r.value] == c && c !in s[..r.value]
  {
    if s == [] then None
    else if s[0] == c then Some(0)
    else match IndexOf(s[1..], c)
      case None => None
      case Some(i) => assert s[..i + 1] == [s[0]] + s[1..][..i]; Some(i + 1)
  }

  /** Python's `s.split(sep)` for a one-character `sep`: never empty, no part contains `sep`. */
  function SplitOn(s: string, sep: char): (parts: seq<string>)
    ensures parts != []
    ensures forall k :: 0 <= k < |parts| ==> sep !in parts[k]
    decreases |s|
  {
    match IndexOf(s, sep)
    case None => [s]
    case Some(i) => [s[..i]] + SplitOn(s[i + 1..], sep)
  }

  /** Joining the parts of a split with the separator gives the string back. */
  lemma {:induction false} JoinSplit(s: string, sep: char)
    ensures Join([sep], SplitOn(s, sep)) == s
    decreases |s|
  {
    match IndexOf(s, sep)
    case None =>
    case Some(i) =>
      JoinSplit(s[i + 1..], sep);
      JoinCons([sep], s[..i], SplitOn(s[i + 1..], sep));
      assert s == s[..i] + [sep] + s[i + 1..];
  }

  /** Splitting parts joined by the separator gives the parts back. */
  lemma {:induction false} SplitJoin(parts: seq<string>, sep: char)
    requires parts != []
    requires forall k :: 0 <= k < |parts| ==> sep !in parts[k]
    ensures SplitOn(Join([sep], parts), sep) == parts
  {
    if |parts| > 1 {
      var rest := Join([sep], parts[1..]);
      var s := parts[0] + [sep] + rest;
      assert Join([sep], parts) == s;
      IndexAfterPrefix(parts[0], sep, rest);
      assert s[..|parts[0]|] == parts[0];
      assert s[|parts[0]| + 1..] == rest;
      SplitJoin(parts[1..], sep);
    } else {
      assert IndexOf(parts[0], sep).None?;
    }
  }

  lemma IndexAfterPrefix(p: string, sep: char, rest: string)
    requires sep !in p
    ensures IndexOf(p + [sep] + rest, sep) == Some(|p|)
  {
    var s := p + [sep] + rest;
    assert s[|p|] == sep;
    assert s[..|p|] == p;
  }
}
