/** Python's `str.split(sep)` and `sep.join(parts)` for a one-character separator. */
module Text {

  /** The pieces of `parts` with `sep` between neighbours. */
  function Join(parts: seq<string>, sep: char): string
  {
    if |parts| == 0 then ""
    else if |parts| == 1 then parts[0]
    else parts[0] + [sep] + Join(parts[1..], sep)
  }

  /** `s` cut at every occurrence of `sep`; there is always at least one piece. */
  function Split(s: string, sep: char): (parts: seq<string>)
    ensures |parts| >= 1
    ensures forall i :: 0 <= i < |parts| ==> sep !in parts[i]
    ensures Join(parts, sep) == s
  {
    if |s| == 0 then [""]
    else
      var rest := Split(s[1..], sep);
      if s[0] == sep then
        assert s == [sep] + s[1..];
        [""] + rest
      else
        assert s == [s[0]] + s[1..];
        [[s[0]] + rest[0]] + rest[1..]
  }

  /** Splitting pieces joined by a separator none of them contains gives the
      pieces back. */
  lemma {:induction false} SplitJoin(parts: seq<string>, sep: char)
    requires |parts| >= 1
    requires forall i :: 0 <= i < |parts| ==> sep !in parts[i]
    ensures Split(Join(parts, sep), sep) == parts
  {
    SplitPrefix(parts[0], sep, if |parts| == 1 then "" else [sep] + Join(parts[1..], sep));
    if |parts| > 1 {
      SplitJoin(parts[1..], sep);
      var tail := Join(parts[1..], sep);
      assert Split([sep] + tail, sep) == [""] + Split(tail, sep) by {
        assert ([sep] + tail)[1..] == tail;
      }
    }
  }

  /** A sep-free prefix extends the first piece of the split of the rest;
      when the rest is empty or starts with `sep` it is the whole first piece. */
  lemma {:induction false} SplitPrefix(a: string, sep: char, b: string)
    requires sep !in a
    requires b == [] || b[0] == sep
    ensures Split(a + b, sep) == [a] + Split(b, sep)[1..]
    decreases |a|
  {
    if |a| > 0 {
      var ab := a + b;
      assert ab[0] == a[0] != sep;
      assert ab[1..] == a[1..] + b;
      SplitPrefix(a[1..], sep, b);
      var rest := Split(ab[1..], sep);
      assert rest == [a[1..]] + Split(b, sep)[1..];
      assert Split(ab, sep) == [[a[0]] + rest[0]] + rest[1..];
      assert [a[0]] + a[1..] == a;
    } else {
      assert a + b == b;
      if |b| > 0 {
        assert Split(b, sep) == [""] + Split(b[1..], sep);
      }
    }
  }

  /** The first piece of a split is the prefix of `s` before the first `sep`. */
  lemma FirstPiece(s: string, sep: char)
    ensures var first := Split(s, sep)[0];
      && first == s[..|first|]
      && sep !in first
      && (|first| < |s| ==> s[|first|] == sep)
      && (sep !in s ==> first == s)
  {
    var parts := Split(s, sep);
    JoinStartsWithFirst(parts, sep);
  }

  /** Appending a piece to a non-empty list appends it after a separator. */
  lemma {:induction false} JoinAppend(parts: seq<string>, last: string, sep: char)
    ensures Join(parts + [last], sep) == if parts == [] then last else Join(parts, sep) + [sep] + last
  {
    if |parts| > 1 {
      assert (parts + [last])[1..] == parts[1..] + [last];
      JoinAppend(parts[1..], last, sep);
    } else if |parts| == 1 {
      assert (parts + [last])[1..] == [last];
    }
  }

  /** A join begins with its first piece, followed by `sep` when more follow. */
  lemma JoinStartsWithFirst(parts: seq<string>, sep: char)
    requires |parts| >= 1
    ensures var j := Join(parts, sep);
      && |parts[0]| <= |j|
      && j[..|parts[0]|] == parts[0]
      && (|parts| > 1 ==> |parts[0]| < |j| && j[|parts[0]|] == sep)
  {
  }
}
