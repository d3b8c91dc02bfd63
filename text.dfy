/**
  The two string primitives the block extractor relies on: whitespace
  tokenisation of a configuration line (Python's `str.split()` with no
  separator) and substring containment (Python's `pat in line`).
 */
module Text {

  /** The characters `str.split()` breaks on: exactly those for which
      Python's `str.isspace()` holds. */
  predicate IsSpace(c: char) {
    ('\t' <= c <= '\r') || ('\U{1C}' <= c <= '\U{1F}') || c == ' ' ||
    c == '\U{85}' || c == '\U{A0}' || c == '\U{1680}' ||
    ('\U{2000}' <= c <= '\U{200A}') || c == '\U{2028}' || c == '\U{2029}' ||
    c == '\U{202F}' || c == '\U{205F}' || c == '\U{3000}'
  }

  predicate NoSpace(w: string) {
    forall i :: 0 <= i < |w| ==> !IsSpace(w[i])
  }

  /** A word in the sense of `str.split()`: non-empty, no whitespace. */
  predicate IsWord(w: string) {
    w != [] && NoSpace(w)
  }

  /** The characters of `s` that are not whitespace, in order. */
  function RemoveSpace(s: string): string {
    if s == [] then []
    else if IsSpace(s[0]) then RemoveSpace(s[1..])
    else [s[0]] + RemoveSpace(s[1..])
  }

  function Concat(ws: seq<string>): string {
    if ws == [] then [] else ws[0] + Concat(ws[1..])
  }

  /** Length of the maximal run of non-whitespace characters that starts `s`. */
  function WordLength(s: string): (n: nat)
    ensures n <= |s|
    ensures forall i :: 0 <= i < n ==> !IsSpace(s[i])
    ensures n < |s| ==> IsSpace(s[n])
  {
    if s == [] || IsSpace(s[0]) then 0 else 1 + WordLength(s[1..])
  }

  /** `s.split()`: the maximal whitespace-free runs of `s`, in order;
      leading, trailing and repeated whitespace yield no empty words. */
  function Tokens(s: string): (r: seq<string>)
    ensures forall k :: 0 <= k < |r| ==> IsWord(r[k])
    ensures Concat(r) == RemoveSpace(s)
    decreases |s|
  {
    if s == [] then []
    else if IsSpace(s[0]) then Tokens(s[1..])
    else
      var n := WordLength(s);
      RemoveSpaceOfWord(s, n);
      ConcatCons(s[..n], Tokens(s[n..]));
      [s[..n]] + Tokens(s[n..])
  }

  lemma ConcatCons(w: string, ws: seq<string>)
    ensures Concat([w] + ws) == w + Concat(ws)
  {
    assert ([w] + ws)[1..] == ws;
  }

  /** Removing whitespace leaves a whitespace-free prefix intact. */
  lemma {:induction false} RemoveSpaceOfWord(s: string, n: nat)
    requires n <= |s|
    requires forall i :: 0 <= i < n ==> !IsSpace(s[i])
    ensures RemoveSpace(s) == s[..n] + RemoveSpace(s[n..])
    decreases n
  {
    if n > 0 {
      RemoveSpaceOfWord(s[1..], n - 1);
      assert s[1..][n - 1..] == s[n..];
      assert s[..n] == [s[0]] + s[1..][..n - 1];
    }
  }

  /** A word followed by nothing or by whitespace is read whole. */
  lemma {:induction false} WordLengthOfWord(w: string, rest: string)
    requires NoSpace(w)
    requires rest == [] || IsSpace(rest[0])
    ensures WordLength(w + rest) == |w|
    decreases |w|
  {
    if w != [] {
      assert (w + rest)[1..] == w[1..] + rest;
      WordLengthOfWord(w[1..], rest);
    } else {
      assert w + rest == rest;
    }
  }

  /** Only whitespace. */
  predicate AllSpace(g: string) {
    forall i :: 0 <= i < |g| ==> IsSpace(g[i])
  }

  /** The words `ws`, each followed by its gap from `gaps`. */
  function Spaced(ws: seq<string>, gaps: seq<string>): string
    requires |gaps| == |ws|
  {
    if ws == [] then [] else ws[0] + gaps[0] + Spaced(ws[1..], gaps[1..])
  }

  /** A line laid out as whitespace, then words separated by non-empty runs
      of whitespace, then optional trailing whitespace. */
  predicate LaidOut(lead: string, ws: seq<string>, gaps: seq<string>) {
    |gaps| == |ws| && AllSpace(lead) &&
    (forall k :: 0 <= k < |ws| ==> IsWord(ws[k]) && AllSpace(gaps[k])) &&
    (forall k :: 0 <= k < |ws| - 1 ==> gaps[k] != [])
  }

  /** Leading whitespace yields no token. */
  lemma {:induction false} TokensAfterSpace(g: string, s: string)
    requires AllSpace(g)
    ensures Tokens(g + s) == Tokens(s)
    decreases |g|
  {
    if g != [] {
      assert (g + s)[1..] == g[1..] + s;
      TokensAfterSpace(g[1..], s);
    } else {
      assert g + s == s;
    }
  }

  /** A word followed by nothing or by whitespace is the first token. */
  lemma TokensOfWord(w: string, rest: string)
    requires IsWord(w)
    requires rest == [] || IsSpace(rest[0])
    ensures Tokens(w + rest) == [w] + Tokens(rest)
  {
    var s := w + rest;
    WordLengthOfWord(w, rest);
    assert s[..|w|] == w && s[|w|..] == rest;
  }

  /** Dropping the first word of a laid-out line leaves one laid out. */
  lemma LaidOutTail(lead: string, ws: seq<string>, gaps: seq<string>)
    requires LaidOut(lead, ws, gaps) && ws != []
    ensures LaidOut(gaps[0], ws[1..], gaps[1..])
    ensures IsWord(ws[0])
    ensures Spaced(ws, gaps) == ws[0] + (gaps[0] + Spaced(ws[1..], gaps[1..]))
    ensures var rest := gaps[0] + Spaced(ws[1..], gaps[1..]); rest == [] || IsSpace(rest[0])
  {
    assert forall k :: 0 <= k < |ws| - 1 ==> ws[1..][k] == ws[k + 1] && gaps[1..][k] == gaps[k + 1];
    if gaps[0] != [] {
      assert (gaps[0] + Spaced(ws[1..], gaps[1..]))[0] == gaps[0][0];
    }
  }

  /** Splitting a laid-out line gives back exactly its words, whatever the
      whitespace before, between and after them (indentation, runs of
      blanks, a trailing newline). */
  lemma {:induction false} TokensOfLaidOut(lead: string, ws: seq<string>, gaps: seq<string>)
    requires LaidOut(lead, ws, gaps)
    ensures Tokens(lead + Spaced(ws, gaps)) == ws
    decreases |ws|
  {
    var rest := Spaced(ws, gaps);
    TokensAfterSpace(lead, rest);
    if ws != [] {
      LaidOutTail(lead, ws, gaps);
      TokensOfLaidOut(gaps[0], ws[1..], gaps[1..]);
      TokensOfWord(ws[0], gaps[0] + Spaced(ws[1..], gaps[1..]));
    } else {
      assert lead + rest == lead + [];
      TokensAfterSpace(lead, []);
    }
  }

  /** `pat in s`: some window of `s` equals `pat`. */
  predicate Contains(s: string, pat: string)
    decreases |s|
  {
    pat <= s || (s != [] && Contains(s[1..], pat))
  }

  /** `pat` occurs in `s` starting at position `i`. */
  predicate OccursAt(s: string, pat: string, i: nat) {
    i + |pat| <= |s| && s[i..i + |pat|] == pat
  }

  lemma {:induction false} ContainsIff(s: string, pat: string)
    ensures Contains(s, pat) <==> exists i: nat :: OccursAt(s, pat, i)
    decreases |s|
  {
    if s != [] {
      ContainsIff(s[1..], pat);
      if pat <= s {
        assert OccursAt(s, pat, 0);
      }
      if Contains(s[1..], pat) {
        var i: nat :| OccursAt(s[1..], pat, i);
        assert OccursAt(s, pat, i + 1);
      }
      if i: nat :| OccursAt(s, pat, i) {
        if i > 0 {
          assert OccursAt(s[1..], pat, i - 1);
        } else {
          assert pat <= s;
        }
      }
    } else if pat == [] {
      assert OccursAt(s, pat, 0);
    }
  }
}
