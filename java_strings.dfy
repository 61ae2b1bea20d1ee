/**
 * The java.lang.String operations the cookie parser relies on, for a literal,
 * non-empty separator: indexOf, split (with its limit-0 rule that drops trailing
 * empty strings) and replaceFirst of a single character.
 */
module JavaStrings {
  import opened Wrappers

  /** `sep` occurs in `s` starting at index `i`. */
  predicate OccursAt(s: string, sep: string, i: nat)
  {
    i + |sep| <= |s| && s[i..i + |sep|] == sep
  }

  /** String.indexOf(sep, from): the leftmost occurrence at or after `from`. */
  function IndexOf(s: string, sep: string, from: nat): (r: Option<nat>)
    requires |sep| > 0
    ensures r.Some? ==> from <= r.value && OccursAt(s, sep, r.value)
    ensures r.Some? ==> forall j :: from <= j < r.value ==> !OccursAt(s, sep, j)
    ensures r.None? ==> forall j :: from <= j ==> !OccursAt(s, sep, j)
    decreases |s| - from
  {
    if from + |sep| > |s| then None
    else if s[from..from + |sep|] == sep then Some(from)
    else IndexOf(s, sep, from + 1)
  }

  /** `s` has no occurrence of `sep` at all. */
  ghost predicate Free(s: string, sep: string)
  {
    forall j :: !OccursAt(s, sep, j)
  }

  /**
   * The pieces between the leftmost non-overlapping occurrences of `sep`, as
   * java.util.regex.Pattern.split collects them before it trims: one more piece
   * than there are occurrences, empty pieces included.
   */
  function Pieces(s: string, sep: string): (r: seq<string>)
    requires |sep| > 0
    ensures |r| >= 1
    decreases |s|
  {
    match IndexOf(s, sep, 0)
    case None => [s]
    case Some(i) => [s[..i]] + Pieces(s[i + |sep|..], sep)
  }

  /** String.join(sep, pieces). */
  function Join(pieces: seq<string>, sep: string): string
  {
    if |pieces| == 0 then ""
    else if |pieces| == 1 then pieces[0]
    else pieces[0] + sep + Join(pieces[1..], sep)
  }

  /** Removes the trailing empty strings, as split with limit 0 does. */
  function DropTrailingEmpty(ps: seq<string>): (r: seq<string>)
    ensures r <= ps
    ensures forall k :: |r| <= k < |ps| ==> ps[k] == ""
    ensures r == [] || r[|r| - 1] != ""
  {
    if |ps| == 0 then []
    else if ps[|ps| - 1] == "" then DropTrailingEmpty(ps[..|ps| - 1])
    else ps
  }

  /**
   * String.split(sep) for a literal separator: a string in which `sep` does not
   * occur comes back alone and unchanged (so "" gives [""]); otherwise the pieces
   * with trailing empty strings removed (so "==" split on "=" gives []).
   */
  function Split(s: string, sep: string): (r: seq<string>)
    requires |sep| > 0
  {
    if IndexOf(s, sep, 0).None? then [s] else DropTrailingEmpty(Pieces(s, sep))
  }

  /** String.replaceFirst(c, ""), for a character `c` that is not a regex metacharacter. */
  function RemoveFirst(s: string, c: char): (r: string)
    ensures c !in s ==> r == s
    ensures c in s ==> |r| == |s| - 1 && multiset(r) + multiset{c} == multiset(s)
  {
    if |s| == 0 then s
    else if s[0] == c then
      assert s == [c] + s[1..];
      s[1..]
    else
      assert s == [s[0]] + s[1..];
      [s[0]] + RemoveFirst(s[1..], c)
  }

  /** The text before the first `c`, or all of `s` when there is none. */
  function Before(s: string, c: char): (r: string)
    ensures r <= s && c !in r
    ensures |r| < |s| ==> s[|r|] == c
  {
    if |s| == 0 || s[0] == c then [] else [s[0]] + Before(s[1..], c)
  }

  /** The text after the first `c`, or nothing when there is none. */
  function After(s: string, c: char): (r: string)
    ensures c in s ==> s == Before(s, c) + [c] + r
    ensures c !in s ==> r == []
  {
    if |s| == 0 then []
    else if s[0] == c then s[1..]
    else After(s[1..], c)
  }

  // ---------------------------------------------------------------------------
  // Properties

  /**
   * What split promises: a string without the separator comes back alone;
   * otherwise the raw pieces with only trailing empty strings removed, so the
   * last piece kept is not empty; and no piece holds the separator.
   */
  lemma SplitSpec(s: string, sep: string)
    requires |sep| > 0
    ensures Free(s, sep) ==> Split(s, sep) == [s]
    ensures !Free(s, sep) ==> Split(s, sep) <= Pieces(s, sep)
    ensures !Free(s, sep) ==> forall k :: |Split(s, sep)| <= k < |Pieces(s, sep)| ==> Pieces(s, sep)[k] == ""
    ensures !Free(s, sep) && Split(s, sep) != [] ==> Split(s, sep)[|Split(s, sep)| - 1] != ""
    ensures forall k :: 0 <= k < |Split(s, sep)| ==> Free(Split(s, sep)[k], sep)
  {
    PiecesFree(s, sep);
  }

  /** replaceFirst deletes exactly the first `c`, wherever it stands, and nothing else. */
  lemma {:induction false} RemoveFirstSpec(s: string, c: char)
    ensures c !in s ==> RemoveFirst(s, c) == s
    ensures c in s ==> RemoveFirst(s, c) == Before(s, c) + After(s, c)
  {
    if |s| > 0 && s[0] != c {
      RemoveFirstSpec(s[1..], c);
      assert s == [s[0]] + s[1..];
    }
  }

  /** The prefix free of `c` that ends at a `c` or at the end is Before(s, c). */
  lemma BeforeUnique(s: string, c: char, i: nat)
    requires i <= |s| && c !in s[..i]
    requires i < |s| ==> s[i] == c
    ensures Before(s, c) == s[..i]
  {
  }

  /** For a one-character separator, an occurrence is that character. */
  lemma OccursAtChar(s: string, c: char, i: nat)
    ensures OccursAt(s, [c], i) <==> i < |s| && s[i] == c
  {
    if i < |s| {
      assert s[i..i + 1] == [s[i]];
    }
  }

  /** A one-character separator occurs in `s` exactly when the character does. */
  lemma {:induction false} IndexOfChar(s: string, c: char)
    ensures IndexOf(s, [c], 0).None? <==> c !in s
    ensures IndexOf(s, [c], 0).Some? ==> IndexOf(s, [c], 0).value == |Before(s, c)|
  {
    match IndexOf(s, [c], 0)
    case None =>
      if c in s {
        var k :| 0 <= k < |s| && s[k] == c;
        OccursAtChar(s, c, k);
      }
    case Some(i) =>
      OccursAtChar(s, c, i);
      forall k | 0 <= k < i ensures s[..i][k] != c {
        OccursAtChar(s, c, k);
      }
      BeforeUnique(s, c, i);
  }

  /** Splitting on one character: the first piece is the text before it, the rest split what follows it. */
  lemma PiecesChar(s: string, c: char)
    ensures Pieces(s, [c])[0] == Before(s, c)
    ensures c in s ==> Pieces(s, [c]) == [Before(s, c)] + Pieces(After(s, c), [c])
  {
    IndexOfChar(s, c);
    if c in s {
      var i := |Before(s, c)|;
      assert s[..i] == Before(s, c);
      assert s[i + 1..] == After(s, c);
    } else {
      BeforeUnique(s, c, |s|);
    }
  }

  /** Splitting on a character: the string alone when it does not occur, the trimmed pieces when it does. */
  lemma SplitOnChar(s: string, c: char)
    ensures c !in s ==> Split(s, [c]) == [s]
    ensures c in s ==> Split(s, [c]) == DropTrailingEmpty(Pieces(s, [c]))
  {
    IndexOfChar(s, c);
  }

  /** What trimming leaves of the first two of at least two pieces. */
  lemma DropTrailingFront(p: seq<string>)
    requires |p| >= 2
    ensures DropTrailingEmpty(p) == [] <==> forall k :: 0 <= k < |p| ==> p[k] == ""
    ensures |DropTrailingEmpty(p)| >= 1 ==> DropTrailingEmpty(p)[0] == p[0]
    ensures |DropTrailingEmpty(p)| == 1 ==> p[1] == ""
    ensures |DropTrailingEmpty(p)| >= 2 ==> DropTrailingEmpty(p)[1] == p[1]
  {
    var d := DropTrailingEmpty(p);
    if d != [] {
      assert d[|d| - 1] == p[|d| - 1];
    }
  }

  /** Every piece is empty. */
  predicate AllEmpty(ps: seq<string>)
  {
    forall k :: 0 <= k < |ps| ==> ps[k] == ""
  }

  /** Every character of `s` is `c`. */
  predicate AllChar(s: string, c: char)
  {
    forall k :: 0 <= k < |s| ==> s[k] == c
  }

  /** Splitting on one character gives only empty pieces exactly when `s` holds nothing but that character. */
  lemma {:induction false} PiecesAllEmpty(s: string, c: char)
    ensures AllEmpty(Pieces(s, [c])) <==> AllChar(s, c)
  {
    OnlySeparatorsGiveEmptyPieces(s, c);
    EmptyPiecesMeanOnlySeparators(s, c);
  }

  lemma {:induction false} OnlySeparatorsGiveEmptyPieces(s: string, c: char)
    ensures AllChar(s, c) ==> AllEmpty(Pieces(s, [c]))
    decreases |s|
  {
    PiecesChar(s, c);
    if |s| > 0 && AllChar(s, c) {
      assert s[0] in s;
      var b, a := Before(s, c), After(s, c);
      forall k | 0 <= k < |a| ensures a[k] == c {
        assert a[k] == s[|b| + 1 + k];
      }
      OnlySeparatorsGiveEmptyPieces(a, c);
      var p := Pieces(s, [c]);
      assert p == [b] + Pieces(a, [c]);
      forall k | 0 <= k < |p| ensures p[k] == "" {
        if k > 0 { assert p[k] == Pieces(a, [c])[k - 1]; }
      }
    }
  }

  lemma {:induction false} EmptyPiecesMeanOnlySeparators(s: string, c: char)
    ensures AllEmpty(Pieces(s, [c])) ==> AllChar(s, c)
    decreases |s|
  {
    PiecesChar(s, c);
    if c in s && AllEmpty(Pieces(s, [c])) {
      var b, a := Before(s, c), After(s, c);
      var p := Pieces(s, [c]);
      assert p == [b] + Pieces(a, [c]);
      forall k | 0 <= k < |Pieces(a, [c])| ensures Pieces(a, [c])[k] == "" {
        assert Pieces(a, [c])[k] == p[k + 1];
      }
      EmptyPiecesMeanOnlySeparators(a, c);
      assert b == p[0] == "";
      assert s == [c] + a;
      forall k | 0 <= k < |s| ensures s[k] == c {
        if k > 0 { assert s[k] == a[k - 1]; }
      }
    }
  }

  /** The pieces put back together with the separator give the original string. */
  lemma {:induction false} JoinPieces(s: string, sep: string)
    requires |sep| > 0
    ensures Join(Pieces(s, sep), sep) == s
    decreases |s|
  {
    match IndexOf(s, sep, 0)
    case None =>
    case Some(i) =>
      var rest := s[i + |sep|..];
      var p := Pieces(rest, sep);
      JoinPieces(rest, sep);
      assert Pieces(s, sep) == [s[..i]] + p;
      assert ([s[..i]] + p)[1..] == p;
      assert Join([s[..i]] + p, sep) == s[..i] + sep + Join(p, sep);
      assert s == s[..i] + sep + rest;
  }

  /** No piece contains the separator. */
  lemma {:induction false} PiecesFree(s: string, sep: string)
    requires |sep| > 0
    ensures forall k :: 0 <= k < |Pieces(s, sep)| ==> Free(Pieces(s, sep)[k], sep)
    decreases |s|
  {
    match IndexOf(s, sep, 0)
    case None =>
    case Some(i) =>
      var rest := s[i + |sep|..];
      PiecesFree(rest, sep);
      forall j: nat ensures !OccursAt(s[..i], sep, j) {
        if j + |sep| <= i {
          assert s[..i][j..j + |sep|] == s[j..j + |sep|];
          assert !OccursAt(s, sep, j);
        }
      }
      var p := Pieces(s, sep);
      assert p == [s[..i]] + Pieces(rest, sep);
      forall k | 0 <= k < |p| ensures Free(p[k], sep) {
        if k > 0 { assert p[k] == Pieces(rest, sep)[k - 1]; }
      }
  }

  /** A separator with a character the string lacks is not found in it. */
  lemma NotFoundWithout(s: string, sep: string, j: nat)
    requires j < |sep| && sep[j] !in s
    ensures IndexOf(s, sep, 0).None?
  {
    forall i: nat ensures !OccursAt(s, sep, i) {
      if i + |sep| <= |s| {
        assert s[i..i + |sep|][j] == s[i + j];
      }
    }
  }

  /** A string that contains `sep` right at `i` and no `sep[0]` before it is found at `i`. */
  lemma IndexOfAt(s: string, sep: string, i: nat)
    requires |sep| > 0 && OccursAt(s, sep, i)
    requires forall j :: 0 <= j < i ==> s[j] != sep[0]
    ensures IndexOf(s, sep, 0) == Some(i)
  {
    forall j: nat | j < i ensures !OccursAt(s, sep, j) {
      if j + |sep| <= |s| {
        assert s[j..j + |sep|][0] == s[j];
      }
    }
  }

  /**
   * Joining pieces that do not contain the separator's first character and
   * splitting again gives the pieces back.
   */
  lemma {:induction false} PiecesOfJoin(ps: seq<string>, sep: string)
    requires |sep| > 0 && |ps| >= 1
    requires forall k :: 0 <= k < |ps| ==> sep[0] !in ps[k]
    ensures Pieces(Join(ps, sep), sep) == ps
  {
    var s := Join(ps, sep);
    if |ps| == 1 {
      match IndexOf(s, sep, 0)
      case None =>
      case Some(i) =>
        assert false;
    } else {
      var rest := Join(ps[1..], sep);
      assert s == ps[0] + sep + rest;
      var i := |ps[0]|;
      assert s[i..i + |sep|] == sep;
      forall j | 0 <= j < i ensures s[j] != sep[0] {
        assert s[j] == ps[0][j];
      }
      IndexOfAt(s, sep, i);
      assert s[..i] == ps[0];
      assert s[i + |sep|..] == rest;
      PiecesOfJoin(ps[1..], sep);
    }
  }
}
