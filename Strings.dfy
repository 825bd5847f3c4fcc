/** The two string operations the path matcher is built from: Swift's
    `split(separator:)` (which drops empty pieces) and `joined(separator:)`. */
module Strings {

  /** Index of the first `sep` in `s`, or `|s|` when there is none. */
  function TokenEnd(s: string, sep: char): (k: nat)
    ensures k <= |s|
    ensures forall j | 0 <= j < k :: s[j] != sep
    ensures sep !in s[..k]
    ensures k < |s| ==> s[k] == sep
  {
    if s == [] || s[0] == sep then 0
    else
      var k := TokenEnd(s[1..], sep);
      assert s[..k + 1] == [s[0]] + s[1..][..k];
      k + 1
  }

  /** `s.split(separator: sep)`: the maximal non-empty runs of characters
      other than `sep`, left to right. */
  function Split(s: string, sep: char): (r: seq<string>)
    ensures forall p | p in r :: p != [] && sep !in p
    decreases |s|
  {
    if s == [] then []
    else if s[0] == sep then Split(s[1..], sep)
    else
      var k := TokenEnd(s, sep);
      [s[..k]] + Split(s[k..], sep)
  }

  /** `parts.joined(separator: sep)`. */
  function Join(parts: seq<string>, sep: char): (r: string)
  {
    if parts == [] then ""
    else if |parts| == 1 then parts[0]
    else parts[0] + [sep] + Join(parts[1..], sep)
  }

  /** A piece as `split` produces it: non-empty and free of the separator. */
  predicate IsPiece(p: string, sep: char)
  {
    p != [] && sep !in p
  }

  lemma {:induction false} TokenEndOfPiece(p: string, rest: string, sep: char)
    requires IsPiece(p, sep)
    requires rest == [] || rest[0] == sep
    ensures TokenEnd(p + rest, sep) == |p|
  {
    var s := p + rest;
    var k := TokenEnd(s, sep);
    assert forall j | 0 <= j < |p| :: s[j] == p[j] && p[j] in p;
    assert rest != [] ==> s[|p|] == sep;
  }

  /** Splitting a single piece gives that piece back. */
  lemma SplitPiece(p: string, sep: char)
    requires IsPiece(p, sep)
    ensures Split(p, sep) == [p]
  {
    TokenEndOfPiece(p, [], sep);
    assert p + [] == p;
    assert p[|p|..] == [];
  }

  /** Round trip: joining pieces and splitting again restores them. */
  lemma {:induction false} SplitJoin(parts: seq<string>, sep: char)
    requires forall p | p in parts :: IsPiece(p, sep)
    ensures Split(Join(parts, sep), sep) == parts
  {
    if parts == [] {
    } else if |parts| == 1 {
      SplitPiece(parts[0], sep);
    } else {
      var p, rest := parts[0], Join(parts[1..], sep);
      var s := p + [sep] + rest;
      assert s == p + ([sep] + rest);
      TokenEndOfPiece(p, [sep] + rest, sep);
      assert s[..|p|] == p;
      assert s[|p|..] == [sep] + rest;
      assert s[|p|..][1..] == rest;
      SplitJoin(parts[1..], sep);
      assert parts == [p] + parts[1..];
    }
  }

  /** Splitting a piece followed by a separator and more text yields the
      piece, then the pieces of the rest. */
  lemma SplitCons(p: string, rest: string, sep: char)
    requires IsPiece(p, sep)
    ensures Split(p + [sep] + rest, sep) == [p] + Split(rest, sep)
  {
    var s := p + [sep] + rest;
    assert s == p + ([sep] + rest);
    TokenEndOfPiece(p, [sep] + rest, sep);
    assert s[..|p|] == p;
    assert s[|p|..] == [sep] + rest;
    assert s[|p|..][1..] == rest;
  }

  /** A separator inside `s` is found before anything appended to `s`. */
  lemma TokenEndAppend(s: string, x: string, sep: char)
    requires TokenEnd(s, sep) < |s|
    ensures TokenEnd(s + x, sep) == TokenEnd(s, sep)
  {
    var k, k' := TokenEnd(s, sep), TokenEnd(s + x, sep);
    assert (s + x)[k] == s[k];
    assert forall j | 0 <= j < k :: (s + x)[j] == s[j];
  }

  /** Splitting `s + [sep] + p` for a piece `p` adds `p` as the last piece. */
  lemma {:induction false} SplitSnoc(s: string, p: string, sep: char)
    requires IsPiece(p, sep)
    ensures Split(s + [sep] + p, sep) == Split(s, sep) + [p]
    decreases |s|
  {
    var t := s + [sep] + p;
    if s == [] {
      assert t[1..] == p;
      SplitPiece(p, sep);
    } else if s[0] == sep {
      assert t[1..] == s[1..] + [sep] + p;
      SplitSnoc(s[1..], p, sep);
    } else {
      var k := TokenEnd(s, sep);
      assert t[0] == s[0];
      if k < |s| {
        TokenEndAppend(s, [sep] + p, sep);
        assert t == s + ([sep] + p);
        assert t[..k] == s[..k];
        assert t[k..] == s[k..] + [sep] + p;
        SplitSnoc(s[k..], p, sep);
        assert Split(t, sep) == [s[..k]] + Split(s[k..] + [sep] + p, sep);
      } else {
        assert t == s + ([sep] + p);
        TokenEndOfPiece(s, [sep] + p, sep);
        assert t[..k] == s;
        assert t[k..] == [sep] + p;
        assert t[k..][1..] == p;
        assert Split(t[k..], sep) == Split(p, sep);
        SplitPiece(p, sep);
        assert s[k..] == [] && s[..k] == s;
        assert Split(s, sep) == [s];
        assert Split(t, sep) == [t[..k]] + Split(t[k..], sep);
      }
    }
  }

  /** Joining what `split` returns never makes the string longer. */
  lemma {:induction false} JoinSplitLength(s: string, sep: char)
    ensures |Join(Split(s, sep), sep)| <= |s|
    decreases |s|
  {
    if s == [] {
    } else if s[0] == sep {
      JoinSplitLength(s[1..], sep);
    } else {
      var k := TokenEnd(s, sep);
      var rest := Split(s[k..], sep);
      JoinSplitLength(s[k..], sep);
      if rest != [] {
        assert s[k..] != [];
        assert s[k..][0] == sep;
        assert Split(s[k..], sep) == Split(s[k..][1..], sep);
        JoinSplitLength(s[k..][1..], sep);
        assert Split(s, sep)[1..] == rest;
      }
    }
  }

  /** The path left after dropping the first piece:
      `paths.dropFirst().joined(separator: sep)`. It is strictly shorter than
      the original, which is what makes the path matchers terminate. */
  function RestAfterFirst(s: string, sep: char): (r: string)
    requires |Split(s, sep)| > 1
    ensures |r| < |s|
  {
    var parts := Split(s, sep);
    JoinSplitLength(s, sep);
    assert Join(parts, sep) == parts[0] + [sep] + Join(parts[1..], sep);
    Join(parts[1..], sep)
  }

  /** After a leading piece, the rest of a path is the rest as written,
      with empty pieces dropped. */
  lemma RestAfterPiece(p: string, rest: string, sep: char)
    requires IsPiece(p, sep) && Split(rest, sep) != []
    ensures var parts := Split(p + [sep] + rest, sep);
      |parts| > 1 && parts[0] == p && RestAfterFirst(p + [sep] + rest, sep) == Join(Split(rest, sep), sep)
  {
    SplitCons(p, rest, sep);
    assert Split(p + [sep] + rest, sep)[1..] == Split(rest, sep);
  }
}
