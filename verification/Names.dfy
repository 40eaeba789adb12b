/** Normal forms of tag and folder names, on ASCII text (models/tags.py, models/folders.py, routers/chats.py). */
module Names {
  import opened Lists

  function LowerChar(c: char): char {
    if 'A' <= c <= 'Z' then (c as int + 32) as char else c
  }

  function UpperChar(c: char): char {
    if 'a' <= c <= 'z' then (c as int - 32) as char else c
  }

  /** The cases map onto each other in the order of the alphabet; no other character changes. */
  lemma CasePairs(c: char, d: char)
    ensures 'A' <= c <= 'Z' ==> 'a' <= LowerChar(c) <= 'z' && UpperChar(LowerChar(c)) == c
    ensures 'a' <= c <= 'z' ==> 'A' <= UpperChar(c) <= 'Z' && LowerChar(UpperChar(c)) == c
    ensures 'A' <= c < d <= 'Z' ==> LowerChar(c) < LowerChar(d)
    ensures !('A' <= c <= 'Z') ==> LowerChar(c) == c
    ensures !('a' <= c <= 'z') ==> UpperChar(c) == c
  {
  }

  function Lower(s: string): string { Map(s, LowerChar) }

  /** `sep.join(ws)`. */
  function Join(ws: seq<string>, sep: string): string {
    if ws == [] then "" else if |ws| == 1 then ws[0] else ws[0] + sep + Join(ws[1..], sep)
  }

  lemma {:induction false} MapJoin(ws: seq<string>, sep: string, f: char -> char)
    ensures Map(Join(ws, sep), f) == Join(Map(ws, w => Map(w, f)), Map(sep, f))
  {
    var g := w => Map(w, f);
    if |ws| > 1 {
      MapJoin(ws[1..], sep, f);
      assert Map(ws, g)[1..] == Map(ws[1..], g);
      assert Map(ws[0] + sep + Join(ws[1..], sep), f)
          == Map(ws[0], f) + Map(sep, f) + Map(Join(ws[1..], sep), f);
    }
  }

  // ---------- tag ids and their display names ----------

  function TagChar(c: char): char { if c == ' ' then '_' else LowerChar(c) }

  /** `name.replace(" ", "_").lower()`. */
  function TagId(name: string): string { Map(name, TagChar) }

  /** `s.split("_")`. */
  function SplitUnderscore(s: string): (r: seq<string>)
    ensures |r| >= 1
  {
    if s == "" then [""]
    else
      var rest := SplitUnderscore(s[1..]);
      if s[0] == '_' then [""] + rest else [[s[0]] + rest[0]] + rest[1..]
  }

  function Capitalize(w: string): string {
    if w == "" then "" else [UpperChar(w[0])] + Lower(w[1..])
  }

  /** The name under which an imported tag is inserted. */
  function DisplayName(tagId: string): string {
    Join(Map(SplitUnderscore(tagId), Capitalize), " ")
  }

  lemma {:induction false} SplitJoin(s: string)
    ensures Join(SplitUnderscore(s), "_") == s
  {
    if s != "" {
      SplitJoin(s[1..]);
      var rest := SplitUnderscore(s[1..]);
      if s[0] == '_' {
        assert ([""] + rest)[1..] == rest;
      } else {
        assert ([[s[0]] + rest[0]] + rest[1..])[1..] == rest[1..];
      }
    }
  }

  lemma TagIdOfCapitalized(w: string)
    ensures TagId(Capitalize(w)) == TagId(w)
  {
  }

  /** Importing a tag under its display name and normalising again gives the id that was meant. */
  lemma DisplayRoundTrip(t: string)
    ensures TagId(DisplayName(t)) == TagId(t)
    ensures TagId(TagId(t)) == TagId(t)
  {
    var words := SplitUnderscore(t);
    var caps := Map(words, Capitalize);
    var g := w => Map(w, TagChar);
    MapJoin(caps, " ", TagChar);
    MapJoin(words, "_", TagChar);
    assert Map(caps, g) == Map(words, g) by {
      forall i | 0 <= i < |words| ensures g(caps[i]) == g(words[i]) { TagIdOfCapitalized(words[i]); }
    }
    assert Map(" ", TagChar) == "_" == Map("_", TagChar);
    SplitJoin(t);
  }

  /** Underscores become spaces, the letter at the start of each part a capital, every other letter small. */
  function Titled(s: string, start: bool): string {
    if s == "" then ""
    else if s[0] == '_' then " " + Titled(s[1..], true)
    else [if start then UpperChar(s[0]) else LowerChar(s[0])] + Titled(s[1..], false)
  }

  function FirstAs(words: seq<string>, start: bool): seq<string> requires words != [] {
    [if start then Capitalize(words[0]) else Lower(words[0])] + Map(words[1..], Capitalize)
  }

  lemma {:induction false} JoinTitled(s: string, start: bool)
    ensures Join(FirstAs(SplitUnderscore(s), start), " ") == Titled(s, start)
  {
    if s != "" {
      JoinTitled(s[1..], s[0] == '_');
      if s[0] == '_' { NextPart(s, start); } else { SamePart(s, start); }
    }
  }

  lemma NextPart(s: string, start: bool)
    requires s != "" && s[0] == '_'
    ensures Join(FirstAs(SplitUnderscore(s), start), " ") == " " + Join(FirstAs(SplitUnderscore(s[1..]), true), " ")
  {
    var rest := SplitUnderscore(s[1..]);
    assert ([""] + rest)[1..] == rest;
    assert FirstAs(rest, true) == Map(rest, Capitalize);
    assert FirstAs([""] + rest, start) == [""] + Map(rest, Capitalize);
    assert ([""] + Map(rest, Capitalize))[1..] == Map(rest, Capitalize);
  }

  lemma SamePart(s: string, start: bool)
    requires s != "" && s[0] != '_'
    ensures Join(FirstAs(SplitUnderscore(s), start), " ")
      == [if start then UpperChar(s[0]) else LowerChar(s[0])] + Join(FirstAs(SplitUnderscore(s[1..]), false), " ")
  {
    var rest := SplitUnderscore(s[1..]);
    var word, first := [s[0]] + rest[0], if start then UpperChar(s[0]) else LowerChar(s[0]);
    assert ([word] + rest[1..])[1..] == rest[1..] && word[1..] == rest[0];
    assert (if start then Capitalize(word) else Lower(word)) == [first] + Lower(rest[0]);
    JoinLonger(first, Lower(rest[0]), Map(rest[1..], Capitalize));
  }

  lemma JoinLonger(c: char, w: string, ws: seq<string>)
    ensures Join([[c] + w] + ws, " ") == [c] + Join([w] + ws, " ")
  {
    assert ([[c] + w] + ws)[1..] == ws && ([w] + ws)[1..] == ws;
  }

  function TitleChar(c: char, first: bool): char {
    if c == '_' then ' ' else if first then UpperChar(c) else LowerChar(c)
  }

  lemma {:induction false} TitledAt(s: string, start: bool, i: nat)
    requires i < |s|
    ensures |Titled(s, start)| == |s|
    ensures Titled(s, start)[i] == TitleChar(s[i], if i == 0 then start else s[i - 1] == '_')
  {
    if |s| > 1 { TitledAt(s[1..], s[0] == '_', if i > 0 then i - 1 else 0); }
  }

  /** The name shown for an imported tag, letter by letter. */
  lemma DisplayExactly(t: string, i: nat)
    requires i < |t|
    ensures |DisplayName(t)| == |t|
    ensures DisplayName(t)[i] == TitleChar(t[i], i == 0 || t[i - 1] == '_')
  {
    JoinTitled(t, true);
    assert FirstAs(SplitUnderscore(t), true) == Map(SplitUnderscore(t), Capitalize);
    TitledAt(t, true, i);
  }

  // ---------- folder names ----------

  predicate IsSpace(c: char) {
    c == ' ' || '\t' <= c <= '\r' || '\U{1c}' <= c <= '\U{1f}'
  }

  predicate IsSeparator(c: char) { IsSpace(c) || c == '_' }

  /** The white space of ASCII, as Python's `\s` and `strip` know it. */
  lemma SpaceCodes(c: char)
    ensures IsSpace(c) <==> c as int in {9, 10, 11, 12, 13, 28, 29, 30, 31, 32}
  {
  }

  function DropSeparators(s: string): (r: string)
    ensures |r| <= |s| && (r != "" ==> !IsSeparator(r[0]))
  {
    if s != "" && IsSeparator(s[0]) then DropSeparators(s[1..]) else s
  }

  /** `re.sub(r"[\s_]+", " ", s)`. */
  function Collapse(s: string): string
    decreases |s|
  {
    if s == "" then ""
    else if IsSeparator(s[0]) then " " + Collapse(DropSeparators(s[1..]))
    else [s[0]] + Collapse(s[1..])
  }

  function StripLeft(s: string): string {
    if s != "" && IsSpace(s[0]) then StripLeft(s[1..]) else s
  }

  function StripRight(s: string): string {
    if s != "" && IsSpace(s[|s| - 1]) then StripRight(s[..|s| - 1]) else s
  }

  function Normalize(name: string): string {
    Lower(StripRight(StripLeft(Collapse(name))))
  }

  /** Length of the first word of `s`. */
  function WordLength(s: string): (n: nat)
    ensures n <= |s|
  {
    if s == "" || IsSeparator(s[0]) then 0 else 1 + WordLength(s[1..])
  }

  /** The words between separators: what a folder name means. */
  function Words(s: string): seq<string>
    decreases |s|
  {
    var t := DropSeparators(s);
    if t == "" then [] else
      assert WordLength(t) > 0;
      [t[..WordLength(t)]] + Words(t[WordLength(t)..])
  }

  ghost predicate IsWord(w: string) { w != "" && forall i :: 0 <= i < |w| ==> !IsSeparator(w[i]) }

  ghost predicate AreWords(ws: seq<string>) { forall i :: 0 <= i < |ws| ==> IsWord(ws[i]) }

  lemma {:induction false} WordsAreWords(s: string)
    ensures AreWords(Words(s))
    decreases |s|
  {
    var t := DropSeparators(s);
    WordLengthMeaning(t);
    if t != "" { WordsAreWords(t[WordLength(t)..]); }
  }

  lemma {:induction false} WordLengthMeaning(s: string)
    ensures forall i :: 0 <= i < WordLength(s) ==> !IsSeparator(s[i])
    ensures WordLength(s) < |s| ==> IsSeparator(s[WordLength(s)])
  {
    if s != "" && !IsSeparator(s[0]) { WordLengthMeaning(s[1..]); }
  }

  lemma {:induction false} DropSuffix(s: string)
    ensures var r := DropSeparators(s);
      && (r != "" ==> s[|s| - 1] == r[|r| - 1])
      && (r == "" && s != "" ==> IsSeparator(s[|s| - 1]))
  {
    if s != "" && IsSeparator(s[0]) { DropSuffix(s[1..]); }
  }

  function Tail(s: string): string { if s != "" && IsSeparator(s[|s| - 1]) then " " else "" }

  lemma {:induction false} CollapseWord(s: string, n: nat)
    requires n <= |s| && forall i :: 0 <= i < n ==> !IsSeparator(s[i])
    ensures Collapse(s) == s[..n] + Collapse(s[n..])
  {
    if n > 0 {
      CollapseWord(s[1..], n - 1);
      assert s[1..][n - 1..] == s[n..];
      assert s[..n] == [s[0]] + s[1..][..n - 1];
    } else {
      assert s[0..] == s;
    }
  }

  lemma DropIdempotent(s: string)
    ensures DropSeparators(DropSeparators(s)) == DropSeparators(s)
    ensures Words(DropSeparators(s)) == Words(s)
  {
  }

  /** Collapsing separators writes the words one space apart, and a trailing run as one space. */
  lemma {:induction false} CollapseJoin(t: string)
    requires t != "" ==> !IsSeparator(t[0])
    ensures Collapse(t) == Join(Words(t), " ") + Tail(t)
    decreases |t|
  {
    if t != "" {
      var n := WordLength(t);
      var w, u := t[..n], t[n..];
      WordLengthMeaning(t);
      CollapseWord(t, n);
      assert Words(t) == [w] + Words(u) && w + u == t;
      if u == "" {
        assert w == t && Words(u) == [];
      } else {
        CollapseJoin(DropSeparators(u));
        CollapseGap(w, u);
      }
    }
  }

  lemma CollapseGap(w: string, u: string)
    requires u != "" && IsSeparator(u[0])
    requires var v := DropSeparators(u); Collapse(v) == Join(Words(v), " ") + Tail(v)
    ensures w + Collapse(u) == Join([w] + Words(u), " ") + Tail(w + u)
  {
    var v := DropSeparators(u);
    CollapseSeparators(u);
    TailSuffix(w, u);
    TailDrop(u);
    DropIdempotent(u);
    JoinMore(w, Words(v));
    if v != "" { GapAssoc(w, Join(Words(v), " "), Tail(v)); }
  }

  lemma GapAssoc(w: string, j: string, tail: string)
    ensures w + (" " + (j + tail)) == (w + (" " + j)) + tail
  {
  }

  lemma CollapseSeparators(u: string)
    requires u != "" && IsSeparator(u[0])
    ensures Collapse(u) == " " + Collapse(DropSeparators(u))
    ensures DropSeparators(u) == "" ==> Collapse(u) == " " && Words(u) == []
    ensures DropSeparators(u) != "" ==> Words(u) != []
  {
  }

  lemma TailSuffix(w: string, u: string)
    requires u != ""
    ensures Tail(w + u) == Tail(u)
  {
  }

  lemma TailDrop(u: string)
    requires u != ""
    ensures Tail(u) == if DropSeparators(u) == "" then " " else Tail(DropSeparators(u))
  {
  }

  lemma JoinMore(w: string, ws: seq<string>)
    ensures Join([w] + ws, " ") == if ws == [] then w else w + (" " + Join(ws, " "))
  {
  }

  lemma {:induction false} JoinEnds(ws: seq<string>)
    requires AreWords(ws) && ws != []
    ensures var j := Join(ws, " "); j != "" && !IsSeparator(j[0]) && !IsSeparator(j[|j| - 1])
  {
    assert IsWord(ws[0]);
    if |ws| > 1 { JoinEnds(ws[1..]); }
  }

  lemma StripJoin(j: string, tail: string)
    requires j == "" || (!IsSeparator(j[0]) && !IsSeparator(j[|j| - 1]))
    requires tail == "" || (tail == " " && j != "")
    ensures StripRight(StripLeft(j + tail)) == j && StripRight(StripLeft(" " + (j + tail))) == j
  {
  }

  lemma CollapseName(name: string)
    ensures var v := DropSeparators(name);
      var x := Join(Words(v), " ") + Tail(v);
      Collapse(name) == x || Collapse(name) == " " + x
  {
    CollapseJoin(DropSeparators(name));
  }

  /** A folder name is normalised to its words in lower case, one space apart. */
  lemma NormalizeMeaning(name: string)
    ensures Normalize(name) == Lower(Join(Words(name), " "))
  {
    var v := DropSeparators(name);
    var ws := Words(v);
    CollapseName(name);
    DropIdempotent(name);
    WordsAreWords(v);
    assert v != "" ==> ws != [];
    if ws != [] { JoinEnds(ws); }
    StripJoin(Join(ws, " "), Tail(v));
  }

  lemma {:induction false} WordsOfJoin(ws: seq<string>)
    requires AreWords(ws)
    ensures Words(Join(ws, " ")) == ws
  {
    if ws == [] {
    } else if |ws| == 1 {
      assert IsWord(ws[0]);
      WordThenWords(ws[0], "");
      assert ws[0] + "" == ws[0] && ws == [ws[0]];
    } else {
      assert IsWord(ws[0]);
      WordsOfJoin(ws[1..]);
      var k := Join(ws[1..], " ");
      WordThenWords(ws[0], " " + k);
      assert (" " + k)[1..] == k;
      assert Words(" " + k) == Words(k);
      assert ws[0] + " " + k == ws[0] + (" " + k);
    }
  }

  lemma WordThenWords(w: string, rest: string)
    requires IsWord(w) && (rest != "" ==> IsSeparator(rest[0]))
    ensures Words(w + rest) == [w] + Words(rest)
  {
    var s := w + rest;
    WordLengthIs(s, |w|);
    assert DropSeparators(s) == s && s[..|w|] == w && s[|w|..] == rest;
  }

  lemma {:induction false} WordLengthIs(s: string, n: nat)
    requires n <= |s| && (forall i :: 0 <= i < n ==> !IsSeparator(s[i])) && (n < |s| ==> IsSeparator(s[n]))
    ensures WordLength(s) == n
  {
    if n > 0 { WordLengthIs(s[1..], n - 1); }
  }

  lemma LowerWords(name: string)
    ensures AreWords(Map(Words(name), Lower))
    ensures Lower(Join(Words(name), " ")) == Join(Map(Words(name), Lower), " ")
  {
    WordsAreWords(name);
    MapJoin(Words(name), " ", LowerChar);
    assert Map(Words(name), w => Map(w, LowerChar)) == Map(Words(name), Lower);
    assert Lower(" ") == " ";
    forall i | 0 <= i < |Words(name)| ensures IsWord(Lower(Words(name)[i])) { assert IsWord(Words(name)[i]); }
  }

  lemma NormalizedWords(name: string)
    ensures Words(Normalize(name)) == Map(Words(name), Lower)
  {
    NormalizeMeaning(name);
    LowerWords(name);
    WordsOfJoin(Map(Words(name), Lower));
  }

  lemma LowerTwice(s: string)
    ensures Lower(Lower(s)) == Lower(s)
  {
  }

  /** Two names normalise alike exactly when they have the same words up to case. */
  lemma NormalizeDecides(a: string, b: string)
    ensures Normalize(a) == Normalize(b) <==> Map(Words(a), Lower) == Map(Words(b), Lower)
  {
    NormalizedWords(a);
    NormalizedWords(b);
    NormalizeMeaning(a);
    NormalizeMeaning(b);
    LowerWords(a);
    LowerWords(b);
  }

  lemma NormalizeIdempotent(name: string)
    ensures Normalize(Normalize(name)) == Normalize(name)
  {
    NormalizeMeaning(name);
    LowerTwice(Join(Words(name), " "));
    NormalizedWords(name);
    LowerWords(name);
    NormalizeMeaning(Normalize(name));
  }
}
