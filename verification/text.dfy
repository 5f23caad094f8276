/**
 Character classes and the input normalisation of the detective game
 (`normalizeInput` in scripts/detective.js). Characters are modelled as ASCII:
 `\w` is `[A-Za-z0-9_]`, `\s` and `trim` both mean the six ASCII whitespace
 characters, and lower-casing only touches `A`..`Z`.
 */
module Text {

  /** ASCII whitespace: space, tab, line feed, vertical tab, form feed, carriage return. */
  predicate IsSpace(c: char) {
    c == ' ' || c == '\t' || c == '\n' || c == '\U{B}' || c == '\U{C}' || c == '\r'
  }

  predicate IsUpper(c: char) {
    'A' <= c <= 'Z'
  }

  /** The regular-expression class `\w`. */
  predicate IsWord(c: char) {
    ('a' <= c <= 'z') || IsUpper(c) || ('0' <= c <= '9') || c == '_'
  }

  /** The characters a normalised string is made of. */
  predicate IsNormalChar(c: char) {
    ('a' <= c <= 'z') || ('0' <= c <= '9') || c == '_' || c == ' '
  }

  function LowerChar(c: char): char {
    if IsUpper(c) then (c as int + 32) as char else c
  }

  /** `toLowerCase`, restricted to ASCII. */
  function Lower(s: string): string {
    seq(|s|, i requires 0 <= i < |s| => LowerChar(s[i]))
  }

  /** Removes the leading whitespace: the longest suffix of `s` that does not start with a space. */
  function TrimStart(s: string): (r: string)
    ensures |r| <= |s| && r == s[|s| - |r|..]
    ensures forall i :: 0 <= i < |s| - |r| ==> IsSpace(s[i])
    ensures |r| > 0 ==> !IsSpace(r[0])
  {
    if |s| > 0 && IsSpace(s[0]) then TrimStart(s[1..]) else s
  }

  /** Removes the trailing whitespace: the longest prefix of `s` that does not end with a space. */
  function TrimEnd(s: string): (r: string)
    ensures |r| <= |s| && r == s[..|r|]
    ensures forall i :: |r| <= i < |s| ==> IsSpace(s[i])
    ensures |r| > 0 ==> !IsSpace(r[|r| - 1])
  {
    if |s| > 0 && IsSpace(s[|s| - 1]) then TrimEnd(s[..|s| - 1]) else s
  }

  /** `String.prototype.trim`. */
  function Trim(s: string): string {
    TrimEnd(TrimStart(s))
  }

  /** `replace(/[^\w\s]/g, ' ')`: every character that is neither a word character nor whitespace becomes a space. */
  function ReplaceSpecial(s: string): string {
    seq(|s|, i requires 0 <= i < |s| => if IsWord(s[i]) || IsSpace(s[i]) then s[i] else ' ')
  }

  /** `replace(/\s+/g, ' ')`: every maximal run of whitespace becomes one space. */
  function Collapse(s: string): string
    decreases |s|
  {
    if |s| == 0 then ""
    else if IsSpace(s[0]) then " " + Collapse(TrimStart(s[1..]))
    else [s[0]] + Collapse(s[1..])
  }

  /** `normalizeInput`: lower-case, trim, blank out special characters, collapse whitespace, trim again. */
  function Normalize(s: string): string {
    Trim(Collapse(ReplaceSpecial(Trim(Lower(s)))))
  }

  /** No two spaces are adjacent. */
  predicate NoDoubleSpace(s: string) {
    forall i :: 0 < i < |s| ==> s[i - 1] != ' ' || s[i] != ' '
  }

  /** The shape of every normalised string: lower-case word characters and single inner spaces. */
  predicate IsNormal(s: string) {
    && (forall i :: 0 <= i < |s| ==> IsNormalChar(s[i]))
    && NoDoubleSpace(s)
    && (|s| > 0 ==> s[0] != ' ' && s[|s| - 1] != ' ')
  }

  /** `t` occurs in `s` starting at position `i`. */
  predicate OccursAt(s: string, t: string, i: int) {
    0 <= i && i + |t| <= |s| && s[i..i + |t|] == t
  }

  /** `s.includes(t)`: `t` occurs in `s` as a contiguous substring. */
  predicate Contains(s: string, t: string) {
    exists i :: 0 <= i <= |s| && OccursAt(s, t, i)
  }

  /** A string is contained only in strings at least as long as itself, and every string contains itself. */
  lemma ContainsLength(s: string, t: string)
    ensures Contains(s, t) ==> |t| <= |s|
    ensures Contains(s, s)
  {
    assert OccursAt(s, s, 0);
  }

  /** `trim()` yields the empty string exactly when every character is whitespace. */
  lemma BlankIff(s: string)
    ensures |Trim(s)| == 0 <==> forall i :: 0 <= i < |s| ==> IsSpace(s[i])
  {
  }

  /** Blank input normalises to the empty string. */
  lemma BlankNormalizesEmpty(s: string)
    requires |Trim(s)| == 0
    ensures Normalize(s) == ""
  {
    BlankIff(s);
    var l := Lower(s);
    assert forall i :: 0 <= i < |l| ==> IsSpace(l[i]);
    BlankIff(l);
  }

  /** Collapsing whitespace never lengthens a string. */
  lemma {:induction false} CollapseShrinks(s: string)
    ensures |Collapse(s)| <= |s|
    decreases |s|
  {
    if |s| == 0 {
    } else if IsSpace(s[0]) {
      CollapseShrinks(TrimStart(s[1..]));
    } else {
      CollapseShrinks(s[1..]);
    }
  }

  /** Normalisation never lengthens its input. */
  lemma NormalizeShrinks(s: string)
    ensures |Normalize(s)| <= |s|
  {
    CollapseShrinks(ReplaceSpecial(Trim(Lower(s))));
  }

  /** Every character of a collapsed string is a normal character and no two spaces touch,
      provided every input character is a normal character or whitespace. */
  lemma {:induction false} CollapseShape(s: string)
    requires forall i :: 0 <= i < |s| ==> IsNormalChar(s[i]) || IsSpace(s[i])
    ensures forall i :: 0 <= i < |Collapse(s)| ==> IsNormalChar(Collapse(s)[i])
    ensures NoDoubleSpace(Collapse(s))
    decreases |s|
  {
    if |s| == 0 {
    } else if IsSpace(s[0]) {
      var u := TrimStart(s[1..]);
      CollapseShape(u);
      if |u| > 0 {
        assert Collapse(u) == [u[0]] + Collapse(u[1..]);
      }
    } else {
      CollapseShape(s[1..]);
    }
  }

  /** A string made of normal characters with no two adjacent spaces is left unchanged by collapsing. */
  lemma {:induction false} CollapseFixed(s: string)
    requires forall i :: 0 <= i < |s| ==> IsNormalChar(s[i])
    requires NoDoubleSpace(s)
    ensures Collapse(s) == s
    decreases |s|
  {
    if |s| == 0 {
    } else if IsSpace(s[0]) {
      assert TrimStart(s[1..]) == s[1..];
      CollapseFixed(s[1..]);
    } else {
      CollapseFixed(s[1..]);
    }
  }

  /** `trim()` returns a contiguous slice of its input whose ends are not whitespace. */
  lemma TrimSlice(s: string) returns (k: nat)
    ensures k + |Trim(s)| <= |s| && Trim(s) == s[k..k + |Trim(s)|]
    ensures |Trim(s)| > 0 ==> !IsSpace(Trim(s)[0]) && !IsSpace(Trim(s)[|Trim(s)| - 1])
  {
    var a := TrimStart(s);
    k := |s| - |a|;
    assert Trim(s) == a[..|Trim(s)|];
  }

  /** A slice of a string made of normal characters without adjacent spaces keeps both properties. */
  lemma SliceKeepsShape(c: string, k: nat, m: nat)
    requires k <= m <= |c|
    requires forall i :: 0 <= i < |c| ==> IsNormalChar(c[i])
    requires NoDoubleSpace(c)
    ensures forall i :: 0 <= i < m - k ==> IsNormalChar(c[k..m][i])
    ensures NoDoubleSpace(c[k..m])
  {
    var a := c[k..m];
    forall i | 0 < i < |a|
      ensures a[i - 1] != ' ' || a[i] != ' '
    {
      assert a[i - 1] == c[k + i - 1] && a[i] == c[k + i];
    }
  }

  /** Lower-casing leaves no upper-case letter. */
  lemma LowerNoUpper(s: string)
    ensures forall i :: 0 <= i < |Lower(s)| ==> !IsUpper(Lower(s)[i])
  {
  }

  /** Blanking out special characters of an upper-case-free string leaves only normal characters and whitespace. */
  lemma ReplaceSpecialChars(t: string)
    requires forall i :: 0 <= i < |t| ==> !IsUpper(t[i])
    ensures forall i :: 0 <= i < |ReplaceSpecial(t)| ==> IsNormalChar(ReplaceSpecial(t)[i]) || IsSpace(ReplaceSpecial(t)[i])
  {
  }

  /** After lower-casing, trimming and blanking out special characters, only normal
      characters and whitespace remain. */
  lemma CleanedChars(s: string)
    ensures var r := ReplaceSpecial(Trim(Lower(s)));
      forall i :: 0 <= i < |r| ==> IsNormalChar(r[i]) || IsSpace(r[i])
  {
    var l := Lower(s);
    var t := Trim(l);
    assert forall i :: 0 <= i < |t| ==> !IsUpper(t[i]) by {
      LowerNoUpper(s);
      var k := TrimSlice(l);
      forall i | 0 <= i < |t|
        ensures !IsUpper(t[i])
      {
        assert t[i] == l[k + i];
      }
    }
    ReplaceSpecialChars(t);
  }

  /** Trimming a string of normal characters without adjacent spaces gives a normal-shaped string. */
  lemma TrimNormal(c: string)
    requires forall i :: 0 <= i < |c| ==> IsNormalChar(c[i])
    requires NoDoubleSpace(c)
    ensures IsNormal(Trim(c))
  {
    var n := Trim(c);
    var k := TrimSlice(c);
    SliceKeepsShape(c, k, k + |n|);
  }

  /** Normalised output has the normal shape: only `[a-z0-9_ ]`, single spaces, no space at either end. */
  lemma NormalizeIsNormal(s: string)
    ensures IsNormal(Normalize(s))
  {
    CleanedChars(s);
    var r := ReplaceSpecial(Trim(Lower(s)));
    CollapseShape(r);
    TrimNormal(Collapse(r));
  }

  /** Each step of the normalisation leaves a normal-shaped string alone. */
  lemma NormalizeStepsFixed(s: string)
    requires IsNormal(s)
    ensures Lower(s) == s
    ensures Trim(s) == s
    ensures ReplaceSpecial(s) == s
  {
    LowerFixed(s);
    TrimFixed(s);
    assert forall i :: 0 <= i < |s| ==> ReplaceSpecial(s)[i] == s[i];
  }

  /** A string already in normal shape is its own normalisation. */
  lemma NormalizeFixed(s: string)
    requires IsNormal(s)
    ensures Normalize(s) == s
  {
    NormalizeStepsFixed(s);
    CollapseFixed(s);
  }

  /** The fixed points of normalisation are exactly the normal-shaped strings, so normalising twice
      gives the same string as normalising once. */
  lemma NormalizeIdempotent(s: string)
    ensures Normalize(s) == s <==> IsNormal(s)
    ensures Normalize(Normalize(s)) == Normalize(s)
  {
    NormalizeIsNormal(s);
    NormalizeFixed(Normalize(s));
    if IsNormal(s) {
      NormalizeFixed(s);
    }
  }

  /** The prefix conditions of `CollapseAfterNormal` pass to the tail, and a leading space is
      followed by a character that is not whitespace. */
  lemma NormalPrefixTail(p: string)
    requires |p| > 0
    requires forall i :: 0 <= i < |p| ==> IsNormalChar(p[i])
    requires NoDoubleSpace(p)
    requires p[|p| - 1] != ' '
    ensures forall i :: 0 <= i < |p[1..]| ==> IsNormalChar(p[1..][i])
    ensures NoDoubleSpace(p[1..])
    ensures |p| > 1 ==> p[1..][|p| - 2] != ' '
    ensures IsSpace(p[0]) ==> |p| > 1 && !IsSpace(p[1])
  {
    SliceKeepsShape(p, 1, |p|);
    assert p[1..|p|] == p[1..];
  }

  /** One step of collapsing: a normal character is kept as it is, provided a space is
      followed by a non-space. */
  lemma CollapseStep(c: char, u: string)
    requires IsNormalChar(c)
    requires c == ' ' ==> |u| > 0 && !IsSpace(u[0])
    ensures Collapse([c] + u) == [c] + Collapse(u)
  {
    var s := [c] + u;
    assert s[0] == c && s[1..] == u;
    if c == ' ' {
      assert TrimStart(u) == u;
      assert Collapse(s) == " " + Collapse(u);
    } else {
      assert !IsSpace(c);
      assert Collapse(s) == [c] + Collapse(u);
    }
  }

  /** Collapsing distributes over a normal-shaped prefix that does not end in a space. */
  lemma {:induction false} CollapseAfterNormal(p: string, r: string)
    requires forall i :: 0 <= i < |p| ==> IsNormalChar(p[i])
    requires NoDoubleSpace(p)
    requires |p| > 0 ==> p[|p| - 1] != ' '
    ensures Collapse(p + r) == p + Collapse(r)
    decreases |p|
  {
    if |p| == 0 {
      assert p + r == r;
    } else {
      NormalPrefixTail(p);
      CollapseAfterNormal(p[1..], r);
      CollapseFirst(p, r);
      assert [p[0]] + (p[1..] + Collapse(r)) == p + Collapse(r);
    }
  }

  /** The first character of a normal-shaped prefix passes through collapsing. */
  lemma CollapseFirst(p: string, r: string)
    requires |p| > 0 && IsNormalChar(p[0])
    requires p[0] == ' ' ==> |p| > 1 && !IsSpace(p[1])
    ensures Collapse(p + r) == [p[0]] + Collapse(p[1..] + r)
  {
    var u := p[1..] + r;
    assert p + r == [p[0]] + u;
    assert |p| > 1 ==> u[0] == p[1];
    CollapseStep(p[0], u);
  }

  /** Two normal-shaped words joined by one space are normal-shaped. */
  lemma JoinNormal(p: string, q: string)
    requires IsNormal(p) && IsNormal(q) && |p| > 0 && |q| > 0
    ensures IsNormal(p + " " + q)
  {
    var n := p + " " + q;
    forall i | 0 < i < |n|
      ensures n[i - 1] != ' ' || n[i] != ' '
    {
      if i < |p| {
        assert n[i - 1] == p[i - 1] && n[i] == p[i];
      } else if i > |p| + 1 {
        assert n[i - 1] == q[i - 2 - |p|] && n[i] == q[i - 1 - |p|];
      }
    }
  }

  /** Lower-casing leaves a string without upper-case letters alone. */
  lemma LowerFixed(s: string)
    requires forall i :: 0 <= i < |s| ==> !IsUpper(s[i])
    ensures Lower(s) == s
  {
  }

  /** Trimming leaves a string alone whose ends are not whitespace. */
  lemma TrimFixed(s: string)
    requires |s| > 0 ==> !IsSpace(s[0]) && !IsSpace(s[|s| - 1])
    ensures Trim(s) == s
  {
    assert TrimStart(s) == s;
  }

  /** Trimming removes one space on either side of a string whose ends are not whitespace. */
  lemma TrimSurrounded(s: string)
    requires |s| > 0 && !IsSpace(s[0]) && !IsSpace(s[|s| - 1])
    ensures Trim(" " + s + " ") == s
  {
    var u := s + " ";
    assert (" " + s + " ")[1..] == u;
    assert TrimStart(u) == u;
    assert u[..|s|] == s;
    assert TrimEnd(s) == s;
  }

  /** The first three normalisation steps on a normal-shaped pair of words split by " #". */
  lemma HashStringSteps(p: string, q: string)
    requires IsNormal(p) && IsNormal(q) && |p| > 0 && |q| > 0
    ensures Trim(Lower(p + " #" + q)) == p + " #" + q
    ensures ReplaceSpecial(p + " #" + q) == p + ("  " + q)
  {
    HashStringNoUpper(p, q);
    LowerFixed(p + " #" + q);
    TrimFixed(p + " #" + q);
    HashStringBlanked(p, q);
  }

  /** A normal-shaped pair of words split by " #" has no upper-case letter. */
  lemma HashStringNoUpper(p: string, q: string)
    requires IsNormal(p) && IsNormal(q)
    ensures forall i :: 0 <= i < |p + " #" + q| ==> !IsUpper((p + " #" + q)[i])
  {
    var s := p + " #" + q;
    forall i | 0 <= i < |s|
      ensures !IsUpper(s[i])
    {
      if i < |p| {
        assert s[i] == p[i];
      } else if i > |p| + 1 {
        assert s[i] == q[i - |p| - 2];
      }
    }
  }

  /** Blanking out special characters turns the `#` into a second space and changes nothing else. */
  lemma HashStringBlanked(p: string, q: string)
    requires IsNormal(p) && IsNormal(q)
    ensures ReplaceSpecial(p + " #" + q) == p + ("  " + q)
  {
    var s := p + " #" + q;
    var n := p + ("  " + q);
    assert |ReplaceSpecial(s)| == |n|;
    forall i | 0 <= i < |s|
      ensures ReplaceSpecial(s)[i] == n[i]
    {
      if i < |p| {
        assert s[i] == p[i] && n[i] == p[i];
      } else if i > |p| + 1 {
        assert s[i] == q[i - |p| - 2] && n[i] == q[i - |p| - 2];
      }
    }
  }

  /** Two spaces in front of a normal word collapse to one. */
  lemma CollapseDoubleSpace(q: string)
    requires IsNormal(q) && |q| > 0
    ensures Collapse("  " + q) == " " + q
  {
    var s, u := "  " + q, " " + q;
    assert s[0] == ' ' && s[1..] == u;
    assert u[0] == ' ' && u[1..] == q;
    assert !IsSpace(q[0]);
    assert TrimStart(u) == TrimStart(q) == q;
    assert Collapse(s) == " " + Collapse(q);
    CollapseFixed(q);
  }

  /** Collapsing the double space left where the `#` was. */
  lemma CollapseHashGap(p: string, q: string)
    requires IsNormal(p) && IsNormal(q) && |p| > 0 && |q| > 0
    ensures Collapse(p + ("  " + q)) == p + " " + q
  {
    CollapseAfterNormal(p, "  " + q);
    CollapseDoubleSpace(q);
    assert p + (" " + q) == p + " " + q;
  }

  /** A `#` stuck to the front of a word after a space vanishes: `normalizeInput("pc #4")` is "pc 4". */
  lemma HashAfterSpaceVanishes(p: string, q: string)
    requires IsNormal(p) && IsNormal(q) && |p| > 0 && |q| > 0
    ensures Normalize(p + " #" + q) == p + " " + q
  {
    HashStringSteps(p, q);
    CollapseHashGap(p, q);
    JoinNormal(p, q);
    NormalizeStepsFixed(p + " " + q);
  }
}
