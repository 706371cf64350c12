/**
 * The query normalizer of js/search.js (normalize): lower-case, strip the
 * combining diacritical marks, collapse every run of white space to one
 * space, trim. The canonical decomposition that precedes the stripping is
 * not part of this model (it needs the Unicode tables), so a precomposed
 * letter such as U+00E9 keeps its accent while a decomposed one loses it.
 */
module QueryNormalize {
  import opened Text
  import opened Filtering

  /** The block U+0300..U+036F that the normalizer deletes. */
  predicate IsCombiningMark(c: char) {
    '\U{300}' <= c <= '\U{36F}'
  }

  /** The replace of /[̀-ͯ]/g by the empty string. */
  function StripMarks(s: string): (r: string)
    ensures |r| <= |s|
    ensures forall i :: 0 <= i < |r| ==> !IsCombiningMark(r[i]) && r[i] in s
  {
    if s == [] then []
    else if IsCombiningMark(s[0]) then StripMarks(s[1..])
    else [s[0]] + StripMarks(s[1..])
  }

  /** The replace of /\s+/g by a single space. */
  function Collapse(s: string): string
    decreases |s|
  {
    if s == [] then []
    else if IsSpace(s[0]) then [' '] + Collapse(TrimStart(s))
    else [s[0]] + Collapse(s[1..])
  }

  /** Collapsing adds no upper-case letter and no combining mark. */
  lemma {:induction false} CollapseKeepsClass(s: string)
    requires IsLowerCase(s) && HasNoMarks(s)
    ensures IsLowerCase(Collapse(s)) && HasNoMarks(Collapse(s))
    decreases |s|
  {
    if s != [] {
      var t := if IsSpace(s[0]) then TrimStart(s) else s[1..];
      SuffixKeepsClass(s, |s| - |t|);
      CollapseKeepsClass(t);
      ConsKeepsClass(if IsSpace(s[0]) then ' ' else s[0], Collapse(t));
    }
  }

  lemma SuffixKeepsClass(s: string, n: nat)
    requires n <= |s| && IsLowerCase(s) && HasNoMarks(s)
    ensures IsLowerCase(s[n..]) && HasNoMarks(s[n..])
  {
    assert forall i :: 0 <= i < |s| - n ==> s[n..][i] == s[n + i];
  }

  lemma ConsKeepsClass(c: char, t: string)
    requires !IsUpper(c) && !IsCombiningMark(c) && IsLowerCase(t) && HasNoMarks(t)
    ensures IsLowerCase([c] + t) && HasNoMarks([c] + t)
  {
    assert forall i :: 0 < i <= |t| ==> ([c] + t)[i] == t[i - 1];
  }

  /** normalize: an empty input gives the empty string, any other goes through the pipeline. */
  function Normalize(s: string): (r: string)
    ensures s == [] ==> r == []
  {
    if s == [] then [] else Trim(Collapse(StripMarks(Lower(s))))
  }

  predicate HasNoMarks(s: string) {
    forall i :: 0 <= i < |s| ==> !IsCombiningMark(s[i])
  }

  /** The only white space left is the plain space. */
  predicate SpacesAreBlank(s: string) {
    forall i :: 0 <= i < |s| && IsSpace(s[i]) ==> s[i] == ' '
  }

  /** No two white-space characters are adjacent. */
  predicate HasNoRun(s: string) {
    forall i :: 0 < i < |s| ==> !(IsSpace(s[i - 1]) && IsSpace(s[i]))
  }

  /** What a normalized query looks like. */
  predicate IsNormalized(s: string) {
    IsLowerCase(s) && HasNoMarks(s) && SpacesAreBlank(s) && HasNoRun(s) && IsTrimmed(s)
  }

  /** The characters of `s` that are not white space, in order. */
  function Visible(s: string): string {
    if s == [] then [] else if IsSpace(s[0]) then Visible(s[1..]) else [s[0]] + Visible(s[1..])
  }

  predicate IsKept(c: char) {
    !IsCombiningMark(c)
  }

  /** Stripping the marks is filtering: every other character is kept, in order. */
  lemma {:induction false} StripMarksFilter(s: string)
    ensures StripMarks(s) == Filter(IsKept, s)
  {
    if s != [] {
      StripMarksFilter(s[1..]);
    }
  }

  /**
   * The characters StripMarks keeps are those of `s` at the positions
   * `idx`, strictly increasing, and these are exactly the positions that
   * do not hold a combining mark.
   */
  lemma StripMarksPositions(s: string) returns (idx: seq<nat>)
    ensures ArePositions(IsKept, s, StripMarks(s), idx)
  {
    StripMarksFilter(s);
    idx := FilterPositions(IsKept, s);
  }

  /** A run of white space in front of text that does not start with white space is all that trimStart drops. */
  lemma {:induction false} TrimStartBlank(w: string, b: string)
    requires forall i :: 0 <= i < |w| ==> IsSpace(w[i])
    requires b == [] || !IsSpace(b[0])
    ensures TrimStart(w + b) == b
  {
    if w == [] {
      assert w + b == b;
    } else {
      assert (w + b)[0] == w[0] && (w + b)[1..] == w[1..] + b;
      TrimStartBlank(w[1..], b);
    }
  }

  /** trimStart stops inside a text that ends with something other than white space. */
  lemma {:induction false} TrimStartAppend(a: string, b: string)
    requires a != [] && !IsSpace(a[|a| - 1])
    ensures TrimStart(a + b) == TrimStart(a) + b
  {
    assert (a + b)[0] == a[0];
    if IsSpace(a[0]) {
      assert (a + b)[1..] == a[1..] + b;
      TrimStartAppend(a[1..], b);
    }
  }

  /** Collapsing works piecewise across a cut that follows something other than white space. */
  lemma {:induction false} CollapseAppend(a: string, u: string)
    requires a == [] || !IsSpace(a[|a| - 1])
    ensures Collapse(a + u) == Collapse(a) + Collapse(u)
    decreases |a|
  {
    if a == [] {
      assert a + u == u;
    } else if IsSpace(a[0]) {
      CollapseAppendSpace(a, u);
    } else {
      assert (a + u)[0] == a[0] && (a + u)[1..] == a[1..] + u;
      if a[1..] != [] {
        assert a[1..][|a[1..]| - 1] == a[|a| - 1];
      }
      CollapseAppend(a[1..], u);
      calc {
        Collapse(a + u);
        [a[0]] + Collapse(a[1..] + u);
        [a[0]] + (Collapse(a[1..]) + Collapse(u));
        ([a[0]] + Collapse(a[1..])) + Collapse(u);
      }
    }
  }

  lemma {:induction false} CollapseAppendSpace(a: string, u: string)
    requires a != [] && IsSpace(a[0]) && !IsSpace(a[|a| - 1])
    ensures Collapse(a + u) == Collapse(a) + Collapse(u)
    decreases |a|, 0
  {
    var t := TrimStart(a);
    CollapseSpaceFront(a, u);
    TrimStartAppend(a, u);
    TrimStartKeepsLast(a);
    CollapseAppend(t, u);
    ConsAssoc(' ', Collapse(t), Collapse(u));
  }

  /** A text that starts with white space collapses to one space and the collapse of the rest. */
  lemma CollapseSpaceFront(a: string, u: string)
    requires a != [] && IsSpace(a[0])
    ensures Collapse(a + u) == [' '] + Collapse(TrimStart(a + u))
    ensures Collapse(a) == [' '] + Collapse(TrimStart(a))
  {
    assert (a + u)[0] == a[0];
  }

  lemma TrimStartKeepsLast(a: string)
    requires a != [] && !IsSpace(a[|a| - 1])
    ensures TrimStart(a) != [] && TrimStart(a)[|TrimStart(a)| - 1] == a[|a| - 1]
  {
  }

  lemma ConsAssoc(c: char, x: string, y: string)
    ensures ([c] + x) + y == [c] + (x + y)
  {
  }

  /**
   * A run of white space between two texts becomes exactly one space:
   * the texts on either side are collapsed on their own and nothing of
   * them is lost.
   */
  lemma CollapseRun(a: string, w: string, b: string)
    requires w != [] && forall i :: 0 <= i < |w| ==> IsSpace(w[i])
    requires a == [] || !IsSpace(a[|a| - 1])
    requires b == [] || !IsSpace(b[0])
    ensures Collapse(a + w + b) == Collapse(a) + " " + Collapse(b)
  {
    SeqAssoc(a, w, b);
    CollapseAppend(a, w + b);
    CollapseSpaceFront(w, b);
    TrimStartBlank(w, b);
    SeqAssoc(Collapse(a), " ", Collapse(b));
  }

  lemma SeqAssoc(x: string, y: string, z: string)
    ensures x + y + z == x + (y + z)
  {
  }

  /** Putting a character in front keeps the shape when it does not start a run. */
  lemma ConsKeepsShape(c: char, t: string)
    requires SpacesAreBlank(t) && HasNoRun(t)
    requires IsSpace(c) ==> c == ' ' && (t == [] || !IsSpace(t[0]))
    ensures SpacesAreBlank([c] + t) && HasNoRun([c] + t)
  {
    var r := [c] + t;
    forall i | 0 < i < |r| ensures !(IsSpace(r[i - 1]) && IsSpace(r[i])) {
      assert r[i] == t[i - 1];
      if i > 1 {
        assert r[i - 1] == t[i - 2];
      }
    }
  }

  lemma {:induction false} CollapseShape(s: string)
    ensures SpacesAreBlank(Collapse(s)) && HasNoRun(Collapse(s))
    ensures Collapse(s) != [] && IsSpace(Collapse(s)[0]) ==> s != [] && IsSpace(s[0])
    decreases |s|
  {
    if s != [] {
      if IsSpace(s[0]) {
        CollapseShape(TrimStart(s));
        ConsKeepsShape(' ', Collapse(TrimStart(s)));
      } else {
        CollapseShape(s[1..]);
        ConsKeepsShape(s[0], Collapse(s[1..]));
      }
    }
  }

  lemma {:induction false} SliceKeepsShape(s: string, lo: nat, hi: nat)
    requires lo <= hi <= |s|
    requires IsLowerCase(s) && HasNoMarks(s) && SpacesAreBlank(s) && HasNoRun(s)
    ensures var t := s[lo..hi]; IsLowerCase(t) && HasNoMarks(t) && SpacesAreBlank(t) && HasNoRun(t)
  {
    var t := s[lo..hi];
    forall i | 0 < i < |t| ensures !(IsSpace(t[i - 1]) && IsSpace(t[i])) {
      assert t[i - 1] == s[lo + i - 1] && t[i] == s[lo + i];
    }
  }

  /** Whatever the input, the result of normalize is a normalized query. */
  lemma NormalizeIsNormalized(s: string)
    ensures IsNormalized(Normalize(s))
  {
    if s != [] {
      var l := Lower(s);
      LowerIsLowerCase(s);
      var c := Collapse(StripMarks(l));
      CollapseShape(StripMarks(l));
      CollapseKeepsClass(StripMarks(l));
      assert IsLowerCase(c) && HasNoMarks(c);
      var lo, hi := TrimSlice(c);
      SliceKeepsShape(c, lo, hi);
    }
  }

  lemma {:induction false} StripMarksIdentity(s: string)
    requires HasNoMarks(s)
    ensures StripMarks(s) == s
  {
    if s != [] {
      StripMarksIdentity(s[1..]);
    }
  }

  lemma {:induction false} CollapseIdentity(s: string)
    requires SpacesAreBlank(s) && HasNoRun(s)
    ensures Collapse(s) == s
    decreases |s|
  {
    if s != [] {
      assert SpacesAreBlank(s[1..]) && HasNoRun(s[1..]) by {
        assert forall i :: 0 <= i < |s| - 1 ==> s[1..][i] == s[i + 1];
      }
      if IsSpace(s[0]) {
        assert |s| > 1 ==> !IsSpace(s[1]);
        assert TrimStart(s) == s[1..];
      }
      CollapseIdentity(s[1..]);
    }
  }

  /** normalize changes nothing exactly when its input is already normalized. */
  lemma NormalizeFixpoint(s: string)
    ensures Normalize(s) == s <==> IsNormalized(s)
  {
    NormalizeIsNormalized(s);
    if IsNormalized(s) && s != [] {
      LowerIsLowerCase(s);
      StripMarksIdentity(s);
      CollapseIdentity(s);
      TrimIdentity(s);
    }
  }

  /** Normalizing twice is normalizing once. */
  lemma NormalizeIdempotent(s: string)
    ensures Normalize(Normalize(s)) == Normalize(s)
  {
    NormalizeIsNormalized(s);
    NormalizeFixpoint(Normalize(s));
  }

  lemma {:induction false} VisibleAppend(a: string, b: string)
    ensures Visible(a + b) == Visible(a) + Visible(b)
  {
    if a != [] {
      assert (a + b)[0] == a[0] && (a + b)[1..] == a[1..] + b;
      VisibleAppend(a[1..], b);
      if !IsSpace(a[0]) {
        calc {
          Visible(a + b);
          [a[0]] + Visible(a[1..] + b);
          [a[0]] + (Visible(a[1..]) + Visible(b));
          ([a[0]] + Visible(a[1..])) + Visible(b);
        }
      }
    } else {
      assert a + b == b;
    }
  }

  lemma {:induction false} VisibleBlank(s: string)
    requires forall i :: 0 <= i < |s| ==> IsSpace(s[i])
    ensures Visible(s) == []
  {
    if s != [] {
      VisibleBlank(s[1..]);
    }
  }

  /** A leading run of white space adds nothing visible. */
  lemma {:induction false} VisibleDropFront(s: string, n: nat)
    requires n <= |s|
    requires forall i :: 0 <= i < n ==> IsSpace(s[i])
    ensures Visible(s[n..]) == Visible(s)
    decreases n
  {
    if n > 0 {
      assert s[1..][n - 1..] == s[n..];
      VisibleDropFront(s[1..], n - 1);
    }
  }

  /** A trailing run of white space adds nothing visible. */
  lemma VisibleDropBack(s: string, m: nat)
    requires m <= |s|
    requires forall i :: m <= i < |s| ==> IsSpace(s[i])
    ensures Visible(s[..m]) == Visible(s)
  {
    assert s == s[..m] + s[m..];
    VisibleAppend(s[..m], s[m..]);
    VisibleBlank(s[m..]);
  }

  lemma VisibleTrim(s: string)
    ensures Visible(Trim(s)) == Visible(s)
  {
    var lo, hi := TrimSlice(s);
    VisibleDropFront(s, lo);
    VisibleDropBack(s[lo..], hi - lo);
    assert s[lo..][..hi - lo] == s[lo..hi];
  }

  lemma {:induction false} VisibleCollapse(s: string)
    ensures Visible(Collapse(s)) == Visible(s)
    decreases |s|
  {
    if s != [] {
      if IsSpace(s[0]) {
        var t := TrimStart(s);
        VisibleCollapse(t);
        VisibleDropFront(s, |s| - |t|);
        assert ([' '] + Collapse(t))[1..] == Collapse(t);
      } else {
        VisibleCollapse(s[1..]);
        assert ([s[0]] + Collapse(s[1..]))[1..] == Collapse(s[1..]);
      }
    }
  }

  /**
   * Apart from white space, normalize keeps every character of the
   * lower-cased, mark-free input, in order: it adds, drops and reorders
   * nothing else.
   */
  lemma NormalizeKeepsText(s: string)
    ensures Visible(Normalize(s)) == Visible(StripMarks(Lower(s)))
  {
    if s != [] {
      var c := Collapse(StripMarks(Lower(s)));
      VisibleTrim(c);
      VisibleCollapse(StripMarks(Lower(s)));
    }
  }
}
