/** `safe_filename`: turning a podcast or episode title into a file or
    directory name. */
module Filename {
  import opened Seqs

  /** The length limit used when no `max_length` is passed. */
  const DefaultMaxLength: int := 100

  /** The characters the sanitiser deletes: `<>:"/\|?*`. */
  predicate IsUnsafe(c: char) {
    c == '<' || c == '>' || c == ':' || c == '"' || c == '/' ||
    c == '\\' || c == '|' || c == '?' || c == '*'
  }

  predicate IsSafe(c: char) {
    !IsUnsafe(c)
  }

  /** Python's whitespace (`str.isspace`, which is also what the regex class
      `\s` and `str.strip()` use): tab through carriage return, the four
      information separators, space, NEL, no-break space, and the Unicode
      space and line/paragraph separators. */
  predicate IsSpace(c: char) {
    || ('\t' <= c <= '\r')
    || ('\U{1C}' <= c <= '\U{1F}')
    || c == ' '
    || c == '\U{85}'
    || c == '\U{A0}'
    || c == '\U{1680}'
    || ('\U{2000}' <= c <= '\U{200A}')
    || c == '\U{2028}'
    || c == '\U{2029}'
    || c == '\U{202F}'
    || c == '\U{205F}'
    || c == '\U{3000}'
  }

  predicate IsDash(c: char) {
    c == '-'
  }

  /** Stage 1: delete every unsafe character. */
  function RemoveUnsafe(s: string): (r: string)
    ensures forall i :: 0 <= i < |r| ==> IsSafe(r[i])
    ensures IsSubsequence(r, s)
    ensures |r| == Count(IsSafe, s)
  {
    FilterLength(IsSafe, s);
    Filter(IsSafe, s)
  }

  /** Stage 2: each run of whitespace becomes one space. */
  function CollapseSpaces(s: string): string {
    CollapseRuns(IsSpace, ' ', s)
  }

  /** Stage 3: each run of dashes becomes one dash. */
  function CollapseDashes(s: string): string {
    CollapseRuns(IsDash, '-', s)
  }

  /** How many whitespace characters `s` starts with. */
  function LeadingSpaces(s: string): (k: nat)
    ensures k <= |s|
  {
    |s| - |DropWhile(IsSpace, s)|
  }

  /** Python's `str.strip()`: the slice of `s` left after removing the leading
      and the trailing whitespace, and only that. */
  function Strip(s: string): (r: string)
    ensures LeadingSpaces(s) + |r| <= |s|
    ensures r == s[LeadingSpaces(s)..LeadingSpaces(s) + |r|]
    ensures forall i :: 0 <= i < LeadingSpaces(s) ==> IsSpace(s[i])
    ensures forall i :: LeadingSpaces(s) + |r| <= i < |s| ==> IsSpace(s[i])
    ensures r == [] || (!IsSpace(r[0]) && !IsSpace(r[|r| - 1]))
  {
    DropWhileEnd(IsSpace, DropWhile(IsSpace, s))
  }

  /** The state after the two collapsing stages, before truncation and strip. */
  ghost predicate Collapsed(s: string) {
    && (forall i :: 0 <= i < |s| ==> IsSafe(s[i]))
    && (forall i :: 0 <= i < |s| && IsSpace(s[i]) ==> s[i] == ' ')
    && NoAdjacent(IsSpace, s)
    && NoAdjacent(IsDash, s)
  }

  /** What a sanitised name looks like: no unsafe character, whitespace only
      as single spaces between other characters, no "--". */
  ghost predicate Sanitized(s: string) {
    && Collapsed(s)
    && (s == [] || (!IsSpace(s[0]) && !IsSpace(s[|s| - 1])))
  }

  /** The whole pipeline of `safe_filename(name, max_length)`. */
  function SafeFilename(name: string, maxLength: int): (r: string)
    ensures Sanitized(r)
    ensures maxLength >= 0 ==> |r| <= maxLength
    ensures |r| <= |name|
  {
    var c := CollapseDashes(CollapseSpaces(RemoveUnsafe(name)));
    CollapsingGivesCollapsed(name);
    var d := PyPrefix(c, maxLength);
    SliceKeepsCollapsed(c, 0, |d|);
    var r := Strip(d);
    StripGivesSanitized(d);
    r
  }

  /** The first three stages leave a Collapsed string. */
  lemma CollapsingGivesCollapsed(name: string)
    ensures Collapsed(CollapseDashes(CollapseSpaces(RemoveUnsafe(name))))
  {
    var b := CollapseSpaces(RemoveUnsafe(name));
    CollapseSpacesKeepsSafe(RemoveUnsafe(name));
    CollapseDashesKeepsSafe(b);
    CollapseDashesKeepsSpaces(b);
    CollapseRunsKeepsNoAdjacent(IsDash, '-', IsSpace, b);
  }

  lemma CollapseSpacesKeepsSafe(a: string)
    requires forall i :: 0 <= i < |a| ==> IsSafe(a[i])
    ensures forall i :: 0 <= i < |CollapseSpaces(a)| ==> IsSafe(CollapseSpaces(a)[i])
  {
    var b := CollapseSpaces(a);
    forall i | 0 <= i < |b|
      ensures IsSafe(b[i])
    {
      if b[i] != ' ' {
        var j :| 0 <= j < |a| && a[j] == b[i];
      }
    }
  }

  lemma CollapseDashesKeepsSafe(b: string)
    requires forall i :: 0 <= i < |b| ==> IsSafe(b[i])
    ensures forall i :: 0 <= i < |CollapseDashes(b)| ==> IsSafe(CollapseDashes(b)[i])
  {
    var c := CollapseDashes(b);
    forall i | 0 <= i < |c|
      ensures IsSafe(c[i])
    {
      if c[i] != '-' {
        var j :| 0 <= j < |b| && b[j] == c[i];
      }
    }
  }

  lemma CollapseDashesKeepsSpaces(b: string)
    requires forall i :: 0 <= i < |b| && IsSpace(b[i]) ==> b[i] == ' '
    ensures forall i :: 0 <= i < |CollapseDashes(b)| && IsSpace(CollapseDashes(b)[i]) ==> CollapseDashes(b)[i] == ' '
  {
    var c := CollapseDashes(b);
    forall i | 0 <= i < |c| && IsSpace(c[i])
      ensures c[i] == ' '
    {
      var j :| 0 <= j < |b| && b[j] == c[i];
    }
  }

  /** Every slice of a Collapsed string is Collapsed. */
  lemma SliceKeepsCollapsed(s: string, i: int, j: int)
    requires 0 <= i <= j <= |s|
    requires Collapsed(s)
    ensures Collapsed(s[i..j])
  {
  }

  /** Stripping a Collapsed string makes it Sanitized. */
  lemma StripGivesSanitized(d: string)
    requires Collapsed(d)
    ensures Sanitized(Strip(d))
  {
    StripKeepsCollapsed(d);
  }

  lemma StripKeepsCollapsed(d: string)
    requires Collapsed(d)
    ensures Collapsed(Strip(d))
  {
    SliceIsCollapsed(d, Strip(d), LeadingSpaces(d));
  }

  lemma SliceIsCollapsed(d: string, r: string, k: nat)
    requires Collapsed(d)
    requires k + |r| <= |d| && r == d[k..k + |r|]
    ensures Collapsed(r)
  {
    SliceKeepsCollapsed(d, k, k + |r|);
  }

  /** A Sanitized name within the length limit passes through unchanged. */
  lemma SanitizedIsFixpoint(s: string, maxLength: int)
    requires Sanitized(s)
    requires |s| <= maxLength
    ensures SafeFilename(s, maxLength) == s
  {
    FilterKeepsAll(IsSafe, s);
    CollapseRunsFixpoint(IsSpace, ' ', s);
    CollapseRunsFixpoint(IsDash, '-', s);
    assert PyPrefix(s, maxLength) == s;
    assert DropWhile(IsSpace, s) == s;
    assert DropWhileEnd(IsSpace, s) == s;
  }

  /** Sanitising an already sanitised name changes nothing, for any
      non-negative length limit. */
  lemma SafeFilenameIdempotent(name: string, maxLength: int)
    requires maxLength >= 0
    ensures SafeFilename(SafeFilename(name, maxLength), maxLength) == SafeFilename(name, maxLength)
  {
    SanitizedIsFixpoint(SafeFilename(name, maxLength), maxLength);
  }

  /** No stage deletes or adds a character that is not unsafe, whitespace or
      a dash: they survive in order, and all of them when the limit does not
      cut. A limit that cuts keeps a prefix of them. */
  lemma SafeFilenameKeepsPlain(name: string, maxLength: int)
    ensures var kept := Filter(IsPlain, SafeFilename(name, maxLength));
      var all := Filter(IsPlain, name);
      |kept| <= |all| && kept == all[..|kept|]
    ensures maxLength >= |name| ==> Filter(IsPlain, SafeFilename(name, maxLength)) == Filter(IsPlain, name)
  {
    var a := RemoveUnsafe(name);
    var b := CollapseSpaces(a);
    var c := CollapseDashes(b);
    var d := PyPrefix(c, maxLength);
    var r := Strip(d);
    assert SafeFilename(name, maxLength) == r;
    FilterFilter(IsPlain, IsSafe, name);
    CollapseKeepsPlain(IsSpace, ' ', a);
    CollapseKeepsPlain(IsDash, '-', b);
    PrefixKeepsPlain(c, d);
    StripKeepsPlain(d);
  }

  /** A collapsing stage keeps the plain characters. */
  lemma CollapseKeepsPlain(inRun: char -> bool, rep: char, a: string)
    requires inRun(rep)
    requires forall x :: IsPlain(x) ==> !inRun(x)
    ensures Filter(IsPlain, CollapseRuns(inRun, rep, a)) == Filter(IsPlain, a)
  {
    var b := CollapseRuns(inRun, rep, a);
    CollapseRunsKeepsOthers(inRun, rep, a);
    FilterFilter(IsPlain, Not(inRun), b);
    FilterFilter(IsPlain, Not(inRun), a);
  }

  /** A prefix keeps a prefix of the plain characters. */
  lemma PrefixKeepsPlain(c: string, d: string)
    requires |d| <= |c| && d == c[..|d|]
    ensures var kept := Filter(IsPlain, d);
      |kept| <= |Filter(IsPlain, c)| && kept == Filter(IsPlain, c)[..|kept|]
    ensures d == c ==> Filter(IsPlain, d) == Filter(IsPlain, c)
  {
    assert c == d + c[|d|..];
    FilterConcat(IsPlain, d, c[|d|..]);
  }

  /** Stripping removes only whitespace, so it keeps the plain characters. */
  lemma StripKeepsPlain(d: string)
    ensures Filter(IsPlain, Strip(d)) == Filter(IsPlain, d)
  {
    DropOuterSpaces(d, LeadingSpaces(d), Strip(d));
  }

  /** Deleting whitespace around the slice `r` of `d` keeps the plain characters. */
  lemma DropOuterSpaces(d: string, k: nat, r: string)
    requires k + |r| <= |d| && r == d[k..k + |r|]
    requires forall i :: 0 <= i < k ==> IsSpace(d[i])
    requires forall i :: k + |r| <= i < |d| ==> IsSpace(d[i])
    ensures Filter(IsPlain, d) == Filter(IsPlain, r)
  {
    var front, back := d[..k], d[k + |r|..];
    assert d == front + r + back;
    assert forall i :: 0 <= i < |back| ==> back[i] == d[k + |r| + i];
    FilterNone(IsPlain, front);
    FilterNone(IsPlain, back);
    FilterConcat(IsPlain, front + r, back);
    FilterConcat(IsPlain, front, r);
  }

  /** Two plain words with whitespace between them come out joined by a
      single space: the run is replaced, not deleted. */
  lemma WordsJoinedBySpace(u: string, w: string, v: string, maxLength: int)
    requires u != [] && v != [] && w != []
    requires forall i :: 0 <= i < |u| ==> IsPlain(u[i])
    requires forall i :: 0 <= i < |v| ==> IsPlain(v[i])
    requires forall i :: 0 <= i < |w| ==> IsSpace(w[i])
    requires |u| + 1 + |v| <= maxLength
    ensures SafeFilename(u + w + v, maxLength) == u + " " + v
  {
    var y := u + " " + v;
    AllSafe(u, w, v);
    SpacesCollapse(u, w, v);
    JoinedIsSanitized(u, v);
    CollapseRunsFixpoint(IsDash, '-', y);
    FinishStages(u + w + v, y, maxLength);
  }

  lemma AllSafe(u: string, w: string, v: string)
    requires forall i :: 0 <= i < |u| ==> IsPlain(u[i])
    requires forall i :: 0 <= i < |v| ==> IsPlain(v[i])
    requires forall i :: 0 <= i < |w| ==> IsSpace(w[i])
    ensures RemoveUnsafe(u + w + v) == u + w + v
  {
    var x := u + w + v;
    assert forall i :: 0 <= i < |x| ==> IsSafe(x[i]) by {
      forall i | 0 <= i < |x|
        ensures IsSafe(x[i])
      {
        if i < |u| {
          assert x[i] == u[i];
        } else if i < |u| + |w| {
          assert x[i] == w[i - |u|];
        } else {
          assert x[i] == v[i - |u| - |w|];
        }
      }
    }
    FilterKeepsAll(IsSafe, x);
  }

  /** The whitespace between the words becomes one space. */
  lemma SpacesCollapse(u: string, w: string, v: string)
    requires u != [] && v != [] && w != []
    requires forall i :: 0 <= i < |u| ==> IsPlain(u[i])
    requires forall i :: 0 <= i < |v| ==> IsPlain(v[i])
    requires forall i :: 0 <= i < |w| ==> IsSpace(w[i])
    ensures CollapseSpaces(u + w + v) == u + " " + v
  {
    assert u + w + v == u + (w + v);
    CollapseRunsConcat(IsSpace, ' ', u, w + v);
    CollapseRunsConcat(IsSpace, ' ', w, v);
    CollapseRunsOfRun(IsSpace, ' ', w);
    PlainHasNoSpaceRun(u);
    PlainHasNoSpaceRun(v);
    Assemble(CollapseSpaces(u + (w + v)), CollapseSpaces(w + v), u, v);
  }

  lemma PlainHasNoSpaceRun(u: string)
    requires forall i :: 0 <= i < |u| ==> IsPlain(u[i])
    ensures CollapseSpaces(u) == u
  {
    CollapseRunsFixpoint(IsSpace, ' ', u);
  }

  lemma Assemble(x: string, y: string, u: string, v: string)
    requires x == u + y && y == " " + v
    ensures x == u + " " + v
  {
  }

  lemma JoinedIsSanitized(u: string, v: string)
    requires u != [] && v != []
    requires forall i :: 0 <= i < |u| ==> IsPlain(u[i])
    requires forall i :: 0 <= i < |v| ==> IsPlain(v[i])
    ensures Sanitized(u + " " + v)
  {
    var y := u + " " + v;
    forall i | 0 <= i < |y|
      ensures IsSafe(y[i]) && !IsDash(y[i]) && (IsSpace(y[i]) <==> i == |u|)
    {
      if i < |u| {
        assert y[i] == u[i];
      } else if i > |u| {
        assert y[i] == v[i - |u| - 1];
      }
    }
  }

  /** After the collapsing stages, a Sanitized string within the limit is
      the result. */
  lemma FinishStages(name: string, y: string, maxLength: int)
    requires CollapseDashes(CollapseSpaces(RemoveUnsafe(name))) == y
    requires Sanitized(y)
    requires |y| <= maxLength
    ensures SafeFilename(name, maxLength) == y
  {
    assert PyPrefix(y, maxLength) == y;
    StripSanitized(y);
  }

  /** A Sanitized string has nothing to strip. */
  lemma StripSanitized(y: string)
    requires y == [] || (!IsSpace(y[0]) && !IsSpace(y[|y| - 1]))
    ensures Strip(y) == y
  {
    DropWhileStops(IsSpace, y);
    assert DropWhileEnd(IsSpace, y) == y;
  }

  /** A character that no stage touches. */
  predicate IsPlain(c: char) {
    IsSafe(c) && !IsSpace(c) && !IsDash(c)
  }

  /** A name of plain characters within the length limit is its own safe name. */
  lemma PlainIsFixpoint(s: string, maxLength: int)
    requires forall i :: 0 <= i < |s| ==> IsPlain(s[i])
    requires |s| <= maxLength
    ensures SafeFilename(s, maxLength) == s
  {
    SanitizedIsFixpoint(s, maxLength);
  }

  /** With limit -1 a plain name loses its last character. */
  lemma MinusOneDropsLast(s: string)
    requires forall i :: 0 <= i < |s| ==> IsPlain(s[i])
    ensures SafeFilename(s, -1) == if s == [] then [] else s[..|s| - 1]
  {
    PlainStages(s);
    var d := PyPrefix(s, -1);
    assert forall i :: 0 <= i < |d| ==> IsPlain(d[i]);
    PlainStages(d);
  }

  /** With a negative limit Python's slice drops characters from the end on
      every call, so for every plain name of two or more characters (such as
      "ab", which gives "a" and then "") sanitising twice differs from
      sanitising once. */
  lemma NegativeLimitNotIdempotent(name: string)
    requires |name| >= 2
    requires forall i :: 0 <= i < |name| ==> IsPlain(name[i])
    ensures SafeFilename(SafeFilename(name, -1), -1) != SafeFilename(name, -1)
  {
    MinusOneTwice(name);
  }

  /** Two calls with limit -1 drop the last two characters of a plain name. */
  lemma MinusOneTwice(s: string)
    requires |s| >= 2
    requires forall i :: 0 <= i < |s| ==> IsPlain(s[i])
    ensures SafeFilename(s, -1) == s[..|s| - 1]
    ensures SafeFilename(SafeFilename(s, -1), -1) == s[..|s| - 2]
  {
    MinusOneDropsLast(s);
    SecondDrop(s, s[..|s| - 1]);
  }

  lemma SecondDrop(s: string, once: string)
    requires |s| >= 2 && once == s[..|s| - 1]
    requires forall i :: 0 <= i < |s| ==> IsPlain(s[i])
    ensures SafeFilename(once, -1) == s[..|s| - 2]
  {
    PrefixIsPlain(s, once);
    MinusOneDropsLast(once);
    assert once[..|once| - 1] == s[..|s| - 2];
  }

  lemma PrefixIsPlain(s: string, p: string)
    requires forall i :: 0 <= i < |s| ==> IsPlain(s[i])
    requires |p| <= |s| && p == s[..|p|]
    ensures forall i :: 0 <= i < |p| ==> IsPlain(p[i])
  {
    assert forall i :: 0 <= i < |p| ==> p[i] == s[i];
  }

  /** The stages leave a plain string alone. */
  lemma PlainStages(s: string)
    requires forall i :: 0 <= i < |s| ==> IsPlain(s[i])
    ensures CollapseDashes(CollapseSpaces(RemoveUnsafe(s))) == s
    ensures Strip(s) == s
  {
    FilterKeepsAll(IsSafe, s);
    CollapseRunsFixpoint(IsSpace, ' ', s);
    CollapseRunsFixpoint(IsDash, '-', s);
    assert DropWhile(IsSpace, s) == s;
    assert DropWhileEnd(IsSpace, s) == s;
  }

  /** Deleting the unsafe characters first does not change the result, as the
      pipeline deletes them anyway. */
  lemma UnsafeRemovalFirst(name: string, maxLength: int)
    ensures SafeFilename(RemoveUnsafe(name), maxLength) == SafeFilename(name, maxLength)
  {
    FilterKeepsAll(IsSafe, RemoveUnsafe(name));
  }

  /** The sanitiser's own example: "My/Pod:cast?" becomes "MyPodcast". */
  lemma ExampleMyPodcast(name: string)
    requires name == "My/Pod:cast?"
    ensures SafeFilename(name, DefaultMaxLength) == "MyPodcast"
  {
    RemoveUnsafeExample(name);
    LettersArePlain("MyPodcast");
    PlainAfterRemoval(name, "MyPodcast", DefaultMaxLength);
  }

  /** A name whose safe characters are plain and fit the limit comes out as
      exactly those characters. */
  lemma PlainAfterRemoval(name: string, m: string, maxLength: int)
    requires RemoveUnsafe(name) == m
    requires forall i :: 0 <= i < |m| ==> IsPlain(m[i])
    requires |m| <= maxLength
    ensures SafeFilename(name, maxLength) == m
  {
    UnsafeRemovalFirst(name, maxLength);
    PlainIsFixpoint(m, maxLength);
  }

  lemma RemoveUnsafeExample(name: string)
    requires name == "My/Pod:cast?"
    ensures RemoveUnsafe(name) == "MyPodcast"
  {
    var a, b, c, d, e, f := "My", "/", "Pod", ":", "cast", "?";
    DroppedChar('/');
    DroppedChar(':');
    DroppedChar('?');
    assert name == a + b + c + d + e + f;
    DropUnsafePieces(a, b, c, d, e, f);
    assert a + c + e == "MyPodcast";
  }

  /** A lone unsafe character filters to nothing. */
  lemma DroppedChar(c: char)
    requires IsUnsafe(c)
    ensures Filter(IsSafe, [c]) == []
  {
    assert [c][1..] == [];
  }

  /** ASCII letters are plain. */
  lemma LettersArePlain(s: string)
    requires forall i :: 0 <= i < |s| ==> 'A' <= s[i] <= 'Z' || 'a' <= s[i] <= 'z'
    ensures forall i :: 0 <= i < |s| ==> IsPlain(s[i])
  {
  }

  /** Safe pieces survive and unsafe ones vanish. */
  lemma DropUnsafePieces(a: string, b: string, c: string, d: string, e: string, f: string)
    requires forall i :: 0 <= i < |a| ==> IsSafe(a[i])
    requires forall i :: 0 <= i < |c| ==> IsSafe(c[i])
    requires forall i :: 0 <= i < |e| ==> IsSafe(e[i])
    requires Filter(IsSafe, b) == Filter(IsSafe, d) == Filter(IsSafe, f) == []
    ensures RemoveUnsafe(a + b + c + d + e + f) == a + c + e
  {
    FilterKeepsAll(IsSafe, a);
    AppendDropped(a, b, a);
    AppendKept(a + b, c, a);
    AppendDropped(a + b + c, d, a + c);
    AppendKept(a + b + c + d, e, a + c);
    AppendDropped(a + b + c + d + e, f, a + c + e);
  }

  lemma AppendKept(x: string, y: string, fx: string)
    requires Filter(IsSafe, x) == fx
    requires forall i :: 0 <= i < |y| ==> IsSafe(y[i])
    ensures Filter(IsSafe, x + y) == fx + y
  {
    FilterConcat(IsSafe, x, y);
    FilterKeepsAll(IsSafe, y);
  }

  lemma AppendDropped(x: string, y: string, fx: string)
    requires Filter(IsSafe, x) == fx
    requires Filter(IsSafe, y) == []
    ensures Filter(IsSafe, x + y) == fx
  {
    FilterConcat(IsSafe, x, y);
  }
}
