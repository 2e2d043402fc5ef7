/**
 * The subset of Go's `strings` package that the netblock scrapers use:
 * `Index`, `Contains`, `HasPrefix`, `ToLower`, `TrimSpace`, `Split` and
 * `Join` (the last only to state what `Split` promises).
 *
 * A Go string is a sequence of bytes; here it is a sequence of Unicode code
 * points. Every separator and keyword the scrapers use is ASCII, so on valid
 * UTF-8 text the two views split, trim and search alike.
 *
 * The functions carry no quantified postconditions; what they compute is
 * stated by the lemmas beside them, which callers invoke where needed.
 */
module GoStrings {

  /** `s` holds `sub` starting at position `i`. */
  predicate OccursAt(s: string, sub: string, i: int)
  {
    0 <= i && i + |sub| <= |s| && s[i..i + |sub|] == sub
  }

  /** The first occurrence of `sub` in `s` at position `i` or later, -1 if none. */
  function IndexFrom(s: string, sub: string, i: nat): (r: int)
    requires i <= |s|
    ensures r == -1 || (i <= r && r + |sub| <= |s|)
    decreases |s| - i
  {
    if i + |sub| > |s| then -1
    else if s[i..i + |sub|] == sub then i
    else if i == |s| then -1
    else IndexFrom(s, sub, i + 1)
  }

  /** IndexFrom finds the first occurrence at or after `i`, and -1 means there is none. */
  lemma {:induction false} IndexFromSpec(s: string, sub: string, i: nat)
    requires i <= |s|
    ensures var r := IndexFrom(s, sub, i);
      && (r == -1 || (i <= r && OccursAt(s, sub, r)))
      && (r == -1 ==> forall j :: i <= j ==> !OccursAt(s, sub, j))
      && (r != -1 ==> forall j :: i <= j < r ==> !OccursAt(s, sub, j))
    decreases |s| - i
  {
    if i + |sub| <= |s| && s[i..i + |sub|] != sub && i < |s| {
      IndexFromSpec(s, sub, i + 1);
    }
  }

  /** Go's `strings.Index`: the position of the first occurrence of `sub`, or -1. */
  function Index(s: string, sub: string): int
  {
    IndexFrom(s, sub, 0)
  }

  /** Index is -1 exactly when `sub` does not occur, and otherwise its first position. */
  lemma IndexSpec(s: string, sub: string)
    ensures Index(s, sub) == -1 <==> forall j :: !OccursAt(s, sub, j)
    ensures Index(s, sub) != -1 ==>
      OccursAt(s, sub, Index(s, sub)) && forall j :: 0 <= j < Index(s, sub) ==> !OccursAt(s, sub, j)
  {
    IndexFromSpec(s, sub, 0);
  }

  /** Go's `strings.Contains`. */
  predicate Contains(s: string, sub: string)
  {
    Index(s, sub) >= 0
  }

  /** `s` contains `sub` exactly when `sub` occurs somewhere in it. */
  lemma ContainsIff(s: string, sub: string)
    ensures Contains(s, sub) <==> exists j :: OccursAt(s, sub, j)
  {
    IndexSpec(s, sub);
  }

  /** Go's `strings.HasPrefix`. */
  predicate HasPrefix(s: string, prefix: string)
  {
    |prefix| <= |s| && s[..|prefix|] == prefix
  }

  /** The ASCII part of Go's `unicode.ToLower`. */
  function LowerAscii(c: char): char
  {
    if 'A' <= c <= 'Z' then (c as int + 32) as char else c
  }

  /** Go's `strings.ToLower`, restricted to ASCII letters. */
  function ToLower(s: string): string
  {
    seq(|s|, i requires 0 <= i < |s| => LowerAscii(s[i]))
  }

  /** Go's `unicode.IsSpace`: the Latin-1 spaces and the Unicode White_Space characters. */
  predicate IsSpace(c: char)
  {
    || c == ' ' || '\t' <= c <= '\r' || c == '\U{85}' || c == '\U{A0}'
    || c == '\U{1680}' || '\U{2000}' <= c <= '\U{200A}'
    || c == '\U{2028}' || c == '\U{2029}' || c == '\U{202F}' || c == '\U{205F}'
    || c == '\U{3000}'
  }

  /** `s` without its leading white space. */
  function TrimLeft(s: string): string
    decreases |s|
  {
    if s != [] && IsSpace(s[0]) then TrimLeft(s[1..]) else s
  }

  /** TrimLeft keeps a suffix, removes only white space, and leaves none in front. */
  lemma {:induction false} TrimLeftSpec(s: string)
    ensures var r := TrimLeft(s);
      && |r| <= |s| && r == s[|s| - |r|..]
      && (forall k :: 0 <= k < |s| - |r| ==> IsSpace(s[k]))
      && (r == [] || !IsSpace(r[0]))
    decreases |s|
  {
    if s != [] && IsSpace(s[0]) {
      TrimLeftSpec(s[1..]);
    }
  }

  /** `s` without its trailing white space. */
  function TrimRight(s: string): string
    decreases |s|
  {
    if s != [] && IsSpace(s[|s| - 1]) then TrimRight(s[..|s| - 1]) else s
  }

  /** TrimRight keeps a prefix, removes only white space, and leaves none at the end. */
  lemma {:induction false} TrimRightSpec(s: string)
    ensures var r := TrimRight(s);
      && |r| <= |s| && r == s[..|r|]
      && (forall k :: |r| <= k < |s| ==> IsSpace(s[k]))
      && (r == [] || !IsSpace(r[|r| - 1]))
    decreases |s|
  {
    if s != [] && IsSpace(s[|s| - 1]) {
      TrimRightSpec(s[..|s| - 1]);
    }
  }

  /** Go's `strings.TrimSpace`. */
  function TrimSpace(s: string): string
  {
    TrimRight(TrimLeft(s))
  }

  /** Where TrimSpace's result starts in `s`: after the leading white space. */
  function TrimStart(s: string): nat
  {
    TrimLeftSpec(s);
    |s| - |TrimLeft(s)|
  }

  /**
   * TrimSpace keeps the infix of `s` between its leading and trailing white
   * space, and that infix neither starts nor ends with white space.
   */
  lemma TrimSpaceSpec(s: string)
    ensures var r, i := TrimSpace(s), TrimStart(s);
      && (r == [] || (!IsSpace(r[0]) && !IsSpace(r[|r| - 1])))
      && OccursAt(s, r, i)
      && (forall k :: 0 <= k < i ==> IsSpace(s[k]))
      && (forall k :: i + |r| <= k < |s| ==> IsSpace(s[k]))
  {
    var l := TrimLeft(s);
    TrimLeftSpec(s);
    TrimRightSpec(l);
    var r := TrimRight(l);
    var i := |s| - |l|;
    assert s[i..][..|r|] == s[i..i + |r|];
  }

  /** Text with no white space at either end is its own TrimSpace. */
  lemma TrimSpaceOfTrimmed(s: string)
    requires s == [] || (!IsSpace(s[0]) && !IsSpace(s[|s| - 1]))
    ensures TrimSpace(s) == s
  {
    if s != [] {
      assert TrimLeft(s) == s;
      assert TrimRight(s) == s;
    }
  }

  /** Trimming twice trims no more than trimming once. */
  lemma TrimSpaceIdempotent(s: string)
    ensures TrimSpace(TrimSpace(s)) == TrimSpace(s)
  {
    TrimSpaceSpec(s);
    TrimSpaceOfTrimmed(TrimSpace(s));
  }

  /** An occurrence inside an infix of `s` is an occurrence in `s`. */
  lemma OccursInInfix(s: string, t: string, i: int, sub: string, j: int)
    requires OccursAt(s, t, i) && OccursAt(t, sub, j)
    ensures OccursAt(s, sub, i + j)
  {
    assert t == s[i..i + |t|];
    forall k | 0 <= k < |sub| ensures s[i + j + k] == sub[k] {
      assert t[j + k] == sub[k];
    }
    assert s[i + j..i + j + |sub|] == sub;
  }

  /** Whatever an infix of `s` contains, `s` contains. */
  lemma ContainsTransitive(s: string, t: string, i: int, sub: string)
    requires OccursAt(s, t, i) && Contains(t, sub)
    ensures Contains(s, sub)
  {
    IndexSpec(t, sub);
    OccursInInfix(s, t, i, sub, Index(t, sub));
    ContainsIff(s, sub);
  }

  /** Go's `strings.Join`. */
  function Join(parts: seq<string>, sep: string): string
  {
    if parts == [] then []
    else if |parts| == 1 then parts[0]
    else parts[0] + sep + Join(parts[1..], sep)
  }

  /** Go's `strings.Split` with an empty separator: one string per character. */
  function Explode(s: string): seq<string>
  {
    seq(|s|, i requires 0 <= i < |s| => [s[i]])
  }

  /**
   * Go's `strings.Split`: the pieces of `s` between the non-overlapping
   * occurrences of `sep`, found from the left; with a non-empty separator
   * there is always at least one piece.
   */
  function Split(s: string, sep: string): (r: seq<string>)
    ensures sep != [] ==> |r| >= 1
    decreases |s|
  {
    if sep == [] then Explode(s)
    else
      var m := Index(s, sep);
      if m < 0 then [s]
      else
        IndexSpec(s, sep);
        [s[..m]] + Split(s[m + |sep|..], sep)
  }

  /** Joining the pieces back with the separator gives the original text. */
  lemma {:induction false} SplitJoin(s: string, sep: string)
    requires sep != []
    ensures Join(Split(s, sep), sep) == s
    decreases |s|
  {
    var m := Index(s, sep);
    if m >= 0 {
      IndexSpec(s, sep);
      var rest := s[m + |sep|..];
      SplitJoin(rest, sep);
      assert Split(s, sep) == [s[..m]] + Split(rest, sep);
      assert s == s[..m] + sep + rest;
    }
  }

  /** No piece that Split returns contains the separator. */
  lemma {:induction false} SplitPiecesHaveNoSeparator(s: string, sep: string)
    requires sep != []
    ensures forall k :: 0 <= k < |Split(s, sep)| ==> !Contains(Split(s, sep)[k], sep)
    decreases |s|
  {
    var m := Index(s, sep);
    IndexSpec(s, sep);
    if m >= 0 {
      var r := Split(s, sep);
      SplitPiecesHaveNoSeparator(s[m + |sep|..], sep);
      forall j | OccursAt(s[..m], sep, j) ensures false {
        OccursInInfix(s, s[..m], 0, sep, j);
      }
      ContainsIff(s[..m], sep);
      assert r[1..] == Split(s[m + |sep|..], sep);
    } else {
      ContainsIff(s, sep);
    }
  }

  /** The first piece is `s` up to the first separator, or all of `s` when there is none. */
  lemma SplitFirstPiece(s: string, sep: string)
    requires sep != []
    ensures Index(s, sep) < 0 ==> Split(s, sep)[0] == s
    ensures Index(s, sep) >= 0 ==> Split(s, sep)[0] == s[..Index(s, sep)]
  {
  }

  /**
   * The pieces after the first are the split of the text after the first
   * separator: together with `SplitFirstPiece`, this fixes every piece to
   * the leftmost, non-overlapping occurrences.
   */
  lemma SplitRest(s: string, sep: string)
    requires sep != [] && Contains(s, sep)
    ensures 0 <= Index(s, sep) && Index(s, sep) + |sep| <= |s|
    ensures Split(s, sep)[1..] == Split(s[Index(s, sep) + |sep|..], sep)
  {
    IndexSpec(s, sep);
    ContainsIff(s, sep);
  }

  /** Split yields a single piece exactly when the separator does not occur. */
  lemma SplitSingleIff(s: string, sep: string)
    requires sep != []
    ensures |Split(s, sep)| == 1 <==> !Contains(s, sep)
  {
  }
}
