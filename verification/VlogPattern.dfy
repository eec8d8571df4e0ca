/** Matching a module name against a verbosity pattern with '*', '?' and slashes of either kind. */
module VlogPattern {

  predicate IsSlash(c: char) { c == '/' || c == '\\' }

  /** The texts one pattern character stands for. */
  predicate StandsFor(c: char, text: string) {
    if c == '*' then true
    else |text| == 1 && (c == '?' || (if IsSlash(c) then IsSlash(text[0]) else text[0] == c))
  }

  function Concat(pieces: seq<string>): string
    decreases |pieces|
  {
    if pieces == [] then "" else pieces[0] + Concat(pieces[1..])
  }

  /** The text cut into pieces, one for each pattern character. */
  predicate Cut(pieces: seq<string>, s: string, p: string) {
    && |pieces| == |p| && Concat(pieces) == s
    && forall i :: 0 <= i < |p| ==> StandsFor(p[i], pieces[i])
  }

  /** A text matches a pattern if it can be cut into pieces the pattern's characters stand for. */
  ghost predicate Matches(s: string, p: string) { exists pieces :: Cut(pieces, s, p) }

  lemma EmptyPattern(s: string)
    ensures Matches(s, "") <==> s == ""
  {
    if s == "" { assert Cut([], s, ""); }
  }

  lemma CutTail(pieces: seq<string>, s: string, p: string)
    requires p != "" && Cut(pieces, s, p)
    ensures |pieces[0]| <= |s| && s[..|pieces[0]|] == pieces[0] && Cut(pieces[1..], s[|pieces[0]|..], p[1..])
    ensures StandsFor(p[0], pieces[0]) && Matches(s[|pieces[0]|..], p[1..])
  {}

  lemma CutMore(head: string, s: string, p: string)
    requires p != "" && StandsFor(p[0], head) && Matches(s, p[1..])
    ensures Matches(head + s, p)
  {
    var pieces :| Cut(pieces, s, p[1..]);
    assert ([head] + pieces)[1..] == pieces;
    assert Cut([head] + pieces, head + s, p);
  }

  /** A character other than a star takes exactly one character. */
  lemma OneCharacter(s: string, p: string)
    requires p != "" && p[0] != '*'
    ensures Matches(s, p) <==> s != "" && StandsFor(p[0], s[..1]) && Matches(s[1..], p[1..])
  {
    if Matches(s, p) {
      var pieces :| Cut(pieces, s, p);
      CutTail(pieces, s, p);
    }
    if s != "" && StandsFor(p[0], s[..1]) && Matches(s[1..], p[1..]) {
      CutMore(s[..1], s[1..], p);
      assert s == s[..1] + s[1..];
    }
  }

  /** A star takes any beginning. */
  lemma Star(s: string, p: string)
    requires p != "" && p[0] == '*'
    ensures Matches(s, p) <==> exists i :: 0 <= i <= |s| && Matches(s[i..], p[1..])
  {
    if Matches(s, p) {
      var pieces :| Cut(pieces, s, p);
      CutTail(pieces, s, p);
    }
    if i :| 0 <= i <= |s| && Matches(s[i..], p[1..]) {
      CutMore(s[..i], s[i..], p);
      assert s == s[..i] + s[i..];
    }
  }

  /** A star that takes nothing, or one character more. */
  lemma StarStep(s: string, p: string)
    requires p != "" && p[0] == '*'
    ensures Matches(s, p) <==> Matches(s, p[1..]) || (s != "" && Matches(s[1..], p))
  {
    Star(s, p);
    assert s[0..] == s;
    if s != "" {
      Star(s[1..], p);
      forall i | 0 <= i < |s| ensures s[1..][i..] == s[i + 1..] {}
      if i :| 0 <= i <= |s| && Matches(s[i..], p[1..]) {
        if i > 0 { assert s[1..][i - 1..] == s[i..]; }
      }
      if i :| 0 <= i <= |s[1..]| && Matches(s[1..][i..], p[1..]) {
        assert s[1..][i..] == s[i + 1..];
      }
    }
  }

  /** Stars in a row are one star. */
  lemma StarStar(s: string, p: string)
    requires |p| >= 2 && p[0] == '*' && p[1] == '*'
    ensures Matches(s, p) <==> Matches(s, p[1..])
  {
    var q := p[1..];
    Star(s, p);
    assert s[0..] == s;
    if i :| 0 <= i <= |s| && Matches(s[i..], q) {
      Star(s[i..], q);
      var j :| 0 <= j <= |s[i..]| && Matches(s[i..][j..], q[1..]);
      assert s[i..][j..] == s[i + j..];
      Star(s, q);
    }
  }

  lemma LastStar(s: string)
    ensures Matches(s, "*")
  {
    assert Concat([s]) == s;
    assert Cut([s], s, "*");
  }

  /** Only stars match the empty text. */
  lemma NothingLeft(p: string)
    requires p != "" && p[0] != '*'
    ensures !Matches("", p)
  {
    OneCharacter("", p);
  }

  /** A pattern without special characters matches itself only. */
  lemma {:induction false} PlainPattern(s: string, p: string)
    requires forall i :: 0 <= i < |p| ==> p[i] != '*' && p[i] != '?' && !IsSlash(p[i])
    ensures Matches(s, p) <==> s == p
    decreases |p|
  {
    hide Matches;
    if p == "" {
      EmptyPattern(s);
    } else {
      OneCharacter(s, p);
      if s != "" {
        PlainPattern(s[1..], p[1..]);
        assert s == [s[0]] + s[1..] && p == [p[0]] + p[1..];
      }
    }
  }

  /** Question marks match the texts of their number. */
  lemma {:induction false} QuestionMarks(s: string, p: string)
    requires forall i :: 0 <= i < |p| ==> p[i] == '?'
    ensures Matches(s, p) <==> |s| == |p|
    decreases |p|
  {
    hide Matches;
    if p == "" {
      EmptyPattern(s);
    } else {
      OneCharacter(s, p);
      if s != "" { QuestionMarks(s[1..], p[1..]); }
    }
  }

  /** The same but for the kind of the slashes. */
  predicate Alike(s: string, t: string) {
    |s| == |t| && forall i :: 0 <= i < |s| ==> s[i] == t[i] || (IsSlash(s[i]) && IsSlash(t[i]))
  }

  /** Slashes of either kind are the same, in the text and in the pattern. */
  lemma {:induction false} SlashesAlike(s: string, p: string, t: string, q: string)
    requires Alike(s, t) && Alike(p, q) && Matches(s, p)
    ensures Matches(t, q)
    decreases |p|, |s|
  {
    hide Matches;
    if p == "" {
      EmptyPattern(s);
      EmptyPattern(t);
    } else if p[0] == '*' {
      StarStep(s, p);
      StarStep(t, q);
      if Matches(s, p[1..]) { SlashesAlike(s, p[1..], t, q[1..]); } else { SlashesAlike(s[1..], p, t[1..], q); }
    } else {
      OneCharacter(s, p);
      OneCharacter(t, q);
      SlashesAlike(s[1..], p[1..], t[1..], q[1..]);
    }
  }

  method MatchVlogPattern(text: string, pattern: string) returns (r: bool)
    ensures r <==> Matches(text, pattern)
    decreases |pattern|
  {
    hide Matches;
    var p, s := pattern, text;
    while p != "" && s != "" && p[0] != '*'
      invariant |p| <= |pattern| && (Matches(text, pattern) <==> Matches(s, p))
      decreases |p|
    {
      OneCharacter(s, p);
      match p[0] {
        case '/' =>
          if s[0] != '/' && s[0] != '\\' { return false; }
        case '\\' =>
          if s[0] != '/' && s[0] != '\\' { return false; }
        case '?' =>
        case _ =>
          if p[0] != s[0] { return false; }
      }
      p, s := p[1..], s[1..];
    }
    if p == "" {
      EmptyPattern(s);
      return s == "";
    }
    if p[0] != '*' { NothingLeft(p); }
    ghost var rest, star := p, p;
    while p != "" && p[0] == '*'
      invariant |p| <= |rest|
      invariant if |p| == |rest| then p == rest == star
                else |star| == |p| + 1 && star[0] == '*' && star[1..] == p && (Matches(s, rest) <==> Matches(s, star))
      decreases |p|
    {
      if |p| < |rest| { StarStar(s, star); }
      star, p := p, p[1..];
    }
    if p == "" {
      assert star == "*";
      LastStar(s);
      return true;
    }
    while s != ""
      invariant s != "" ==> |p| < |rest|
      invariant Matches(text, pattern) <==> Matches(s, star)
      decreases |s|
    {
      StarStep(s, star);
      var found := MatchVlogPattern(s, p);
      if found {
        return true;
      }
      s := s[1..];
    }
    NothingLeft(p);
    if |p| < |rest| { StarStep(s, star); }
    return false;
  }
}
