/** The two `String` operations the Spring bean applies to its script list:
    `trim()` and `split(String)` with a one-character, non-regex separator
    (the limit-0 form, which drops trailing empty strings). */
module JavaStrings {

  /** `trim()` strips every code unit at or below U+0020 from both ends. */
  predicate IsTrimmed(ch: char) {
    ch <= ' '
  }

  function TrimStart(s: string): (r: string)
    ensures |r| <= |s| && r == s[|s| - |r|..]
    ensures forall k :: 0 <= k < |s| - |r| ==> IsTrimmed(s[k])
    ensures |r| > 0 ==> !IsTrimmed(r[0])
  {
    if |s| == 0 || !IsTrimmed(s[0]) then s else TrimStart(s[1..])
  }

  function TrimEnd(s: string): (r: string)
    ensures |r| <= |s| && r == s[..|r|]
    ensures forall k :: |r| <= k < |s| ==> IsTrimmed(s[k])
    ensures |r| > 0 ==> !IsTrimmed(r[|r| - 1])
  {
    if |s| == 0 || !IsTrimmed(s[|s| - 1]) then s else TrimEnd(s[..|s| - 1])
  }

  function Trim(s: string): (r: string)
    ensures |r| > 0 ==> !IsTrimmed(r[0]) && !IsTrimmed(r[|r| - 1])
  {
    TrimEnd(TrimStart(s))
  }

  /** `s.trim().isEmpty()` holds exactly for the strings made only of
      characters at or below U+0020, the empty string included. */
  lemma TrimEmptyIffBlank(s: string)
    ensures Trim(s) == [] <==> forall k :: 0 <= k < |s| ==> IsTrimmed(s[k])
  {
    var t := TrimStart(s);
    if Trim(s) != [] {
      var r := Trim(s);
      assert r[0] == t[0] == s[|s| - |t|];
    }
  }

  /** The separators-joined form of a list of pieces. */
  function Join(ps: seq<string>, sep: char): string
  {
    if |ps| == 0 then ""
    else if |ps| == 1 then ps[0]
    else Join(ps[..|ps| - 1], sep) + [sep] + ps[|ps| - 1]
  }

  predicate NoSeparator(p: string, sep: char) {
    forall k :: 0 <= k < |p| ==> p[k] != sep
  }

  /** Every piece between separators, empty ones included (what the
      splitting loop collects before trailing empties are removed). */
  function SplitAll(s: string, sep: char): (ps: seq<string>)
    ensures |ps| >= 1
    ensures forall i :: 0 <= i < |ps| ==> NoSeparator(ps[i], sep)
    ensures sep !in s ==> ps == [s]
  {
    if |s| == 0 then [""]
    else
      var init := SplitAll(s[..|s| - 1], sep);
      if s[|s| - 1] == sep then init + [""]
      else
        assert sep !in s[..|s| - 1] ==> init == [s[..|s| - 1]];
        assert sep !in s ==> s[..|s| - 1] + [s[|s| - 1]] == s;
        init[..|init| - 1] + [init[|init| - 1] + [s[|s| - 1]]]
  }

  /** Adding a piece adds a separator and the piece. */
  lemma JoinSnoc(ps: seq<string>, p: string, sep: char)
    requires |ps| >= 1
    ensures Join(ps + [p], sep) == Join(ps, sep) + [sep] + p
  {
    assert (ps + [p])[..|ps|] == ps;
  }

  /** Extending the last piece extends the joined string. */
  lemma JoinExtendLast(ps: seq<string>, ch: char, sep: char)
    requires |ps| >= 1
    ensures Join(ps[..|ps| - 1] + [ps[|ps| - 1] + [ch]], sep) == Join(ps, sep) + [ch]
  {
    var qs := ps[..|ps| - 1] + [ps[|ps| - 1] + [ch]];
    assert qs[..|qs| - 1] == ps[..|ps| - 1];
  }

  lemma DropLast(s: string)
    requires |s| > 0
    ensures s[..|s| - 1] + [s[|s| - 1]] == s
  {
  }

  /** Splitting then joining gives the string back. */
  lemma {:induction false} JoinSplitAll(s: string, sep: char)
    ensures Join(SplitAll(s, sep), sep) == s
  {
    if |s| > 0 {
      var init := SplitAll(s[..|s| - 1], sep);
      JoinSplitAll(s[..|s| - 1], sep);
      if s[|s| - 1] == sep {
        assert SplitAll(s, sep) == init + [""];
        JoinSnoc(init, "", sep);
      } else {
        assert SplitAll(s, sep) == init[..|init| - 1] + [init[|init| - 1] + [s[|s| - 1]]];
        JoinExtendLast(init, s[|s| - 1], sep);
      }
      DropLast(s);
    }
  }

  /** Joining then splitting gives the pieces back when none holds the
      separator. */
  lemma {:induction false} SplitAllJoin(ps: seq<string>, sep: char)
    requires |ps| >= 1
    requires forall i :: 0 <= i < |ps| ==> NoSeparator(ps[i], sep)
    ensures SplitAll(Join(ps, sep), sep) == ps
  {
    if |ps| > 1 {
      SplitAllJoin(ps[..|ps| - 1], sep);
      SplitAllAppendPiece(Join(ps[..|ps| - 1], sep), ps[|ps| - 1], sep);
      assert ps[..|ps| - 1] + [ps[|ps| - 1]] == ps;
    }
  }

  /** Appending a separator and a separator-free piece adds that piece. */
  lemma {:induction false} SplitAllAppendPiece(s: string, p: string, sep: char)
    requires NoSeparator(p, sep)
    ensures SplitAll(s + [sep] + p, sep) == SplitAll(s, sep) + [p]
    decreases |p|
  {
    var t := s + [sep] + p;
    if |p| == 0 {
      assert t[..|t| - 1] == s;
    } else {
      var q := p[..|p| - 1];
      SplitAllAppendPiece(s, q, sep);
      assert t[..|t| - 1] == s + [sep] + q;
      assert q + [p[|p| - 1]] == p;
    }
  }

  /** The limit-0 rule: trailing empty strings are removed. */
  function DropTrailingEmpty(ps: seq<string>): (r: seq<string>)
    ensures |r| <= |ps| && r == ps[..|r|]
    ensures forall i :: |r| <= i < |ps| ==> ps[i] == ""
    ensures |r| > 0 ==> r[|r| - 1] != ""
  {
    if |ps| == 0 || ps[|ps| - 1] != "" then ps else DropTrailingEmpty(ps[..|ps| - 1])
  }

  /** `s.split(sep)`: a string without the separator comes back whole, even
      when empty; otherwise the pieces, trailing empty ones dropped. */
  function Split(s: string, sep: char): (ps: seq<string>)
    ensures forall i :: 0 <= i < |ps| ==> NoSeparator(ps[i], sep)
    ensures sep in s ==> |ps| == 0 || ps[|ps| - 1] != ""
  {
    if sep !in s then [s] else DropTrailingEmpty(SplitAll(s, sep))
  }

  /** Removing trailing empty pieces removes only trailing separators from
      the joined string. */
  lemma {:induction false} JoinDropTrailingEmpty(ps: seq<string>, sep: char)
    ensures var j := Join(DropTrailingEmpty(ps), sep);
            var whole := Join(ps, sep);
            && |j| <= |whole|
            && whole[..|j|] == j
            && forall k :: |j| <= k < |whole| ==> whole[k] == sep
  {
    if |ps| > 0 && ps[|ps| - 1] == "" {
      JoinDropTrailingEmpty(ps[..|ps| - 1], sep);
    }
  }

  /** The pieces `split` returns, joined back, are the string up to a run of
      trailing separators. */
  lemma SplitIsPrefix(s: string, sep: char)
    ensures var j := Join(Split(s, sep), sep);
            && |j| <= |s|
            && s[..|j|] == j
            && forall k :: |j| <= k < |s| ==> s[k] == sep
  {
    if sep in s {
      JoinSplitAll(s, sep);
      JoinDropTrailingEmpty(SplitAll(s, sep), sep);
    }
  }

  /** A list of separator-free names whose last one is non-empty survives
      joining and splitting unchanged. */
  lemma SplitJoin(ps: seq<string>, sep: char)
    requires |ps| >= 1 && ps[|ps| - 1] != ""
    requires forall i :: 0 <= i < |ps| ==> NoSeparator(ps[i], sep)
    ensures Split(Join(ps, sep), sep) == ps
  {
    SplitAllJoin(ps, sep);
    if |ps| > 1 {
      var j := Join(ps, sep);
      assert j[|Join(ps[..|ps| - 1], sep)|] == sep;
    }
  }

  /** Separators at the end of the string are lost: the two empty pieces
      they delimit are trailing ones, which `split` drops. */
  lemma {:induction false} SplitDropsTrailingSeparators(ps: seq<string>, sep: char)
    requires |ps| >= 1 && ps[|ps| - 1] != ""
    requires forall i :: 0 <= i < |ps| ==> NoSeparator(ps[i], sep)
    ensures Split(Join(ps, sep) + [sep, sep], sep) == ps
  {
    var qs := ps + ["", ""];
    JoinSnoc(ps, "", sep);
    JoinSnoc(ps + [""], "", sep);
    assert ps + [""] + [""] == qs;
    assert Join(qs, sep) == Join(ps, sep) + [sep, sep];
    SplitAllJoin(qs, sep);
    assert qs[..|qs| - 1] == ps + [""];
    assert (ps + [""])[..|ps|] == ps;
    assert Join(qs, sep)[|Join(qs, sep)| - 1] == sep;
  }
}
