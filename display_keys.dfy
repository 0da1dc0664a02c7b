/**
 * The CSS class names the views derive from a category or a difficulty.
 *
 * `getCategoryClass` (written out identically in the place-detail, places
 * and home views) lowercases the category, replaces every run of `\s`
 * characters by one `-`, and then replaces each of á, é, í, ó, ú by the
 * bare vowel. `getDifficultyClass` (in the place-detail and trails views)
 * is `difficulty-` followed by the lowercased difficulty.
 */
module DisplayKeys {
  import opened Text

  // ---------------------------------------------------------------------
  // `.replace(/\s+/g, '-')`

  /**
   * Every maximal run of white space replaced by a single `-`, scanning
   * left to right; `inRun` says whether the character before `s` was white
   * space, so that a run goes on into `s`.
   */
  function CollapseFrom(s: string, inRun: bool): string
  {
    if s == [] then [] else Emit(s[0], inRun) + CollapseFrom(s[1..], IsSpace(s[0]))
  }

  /** What one character contributes: itself, the `-` that opens a run, or nothing inside a run. */
  function Emit(c: char, inRun: bool): string
  {
    if !IsSpace(c) then [c] else if inRun then [] else ['-']
  }

  /** `s.replace(/\s+/g, '-')`. */
  function Collapse(s: string): string
  {
    CollapseFrom(s, false)
  }

  /** Whether a run of white space is open after reading `s`. */
  function RunAfter(s: string, inRun: bool): bool
  {
    if s == [] then inRun else IsSpace(s[|s| - 1])
  }

  predicate AllSpace(w: string) {
    forall i :: 0 <= i < |w| ==> IsSpace(w[i])
  }

  /** The scan of `a + b` is the scan of `a` followed by the scan of `b` in the state `a` leaves. */
  lemma {:induction false} CollapseFromAppend(a: string, b: string, inRun: bool)
    ensures CollapseFrom(a + b, inRun) == CollapseFrom(a, inRun) + CollapseFrom(b, RunAfter(a, inRun))
  {
    if a == [] {
      assert a + b == b;
    } else {
      var x, y, z := Emit(a[0], inRun), CollapseFrom(a[1..], IsSpace(a[0])), CollapseFrom(b, RunAfter(a, inRun));
      assert CollapseFrom(a + b, inRun) == x + (y + z) by {
        var t := a + b;
        assert t[0] == a[0] && t[1..] == a[1..] + b;
        CollapseFromAppend(a[1..], b, IsSpace(a[0]));
        RunAfterTail(a, inRun);
      }
      assert x + (y + z) == (x + y) + z;
    }
  }

  lemma RunAfterTail(a: string, inRun: bool)
    requires a != []
    ensures RunAfter(a[1..], IsSpace(a[0])) == RunAfter(a, inRun)
  {
    if |a| > 1 {
      assert a[1..][|a[1..]| - 1] == a[|a| - 1];
    }
  }

  /** Whether a run is open matters only when the text starts with white space. */
  lemma CollapseFromStart(s: string, inRun: bool)
    requires s == [] || !IsSpace(s[0])
    ensures CollapseFrom(s, inRun) == Collapse(s)
  {
  }

  /** A run of white space met outside a run gives one `-`; inside one, nothing. */
  lemma {:induction false} CollapseFromRun(w: string, inRun: bool)
    requires w != [] && AllSpace(w)
    ensures CollapseFrom(w, inRun) == if inRun then [] else ['-']
  {
    if |w| > 1 {
      CollapseFromRun(w[1..], true);
    }
  }

  /** The replacement never lengthens the text: each character gives at most one. */
  lemma {:induction false} CollapseFromLength(s: string, inRun: bool)
    ensures |CollapseFrom(s, inRun)| <= |s|
  {
    if s != [] {
      CollapseFromLength(s[1..], IsSpace(s[0]));
    }
  }

  /** The result has no white space at all. */
  lemma {:induction false} CollapseNoSpace(s: string, inRun: bool)
    ensures NoSpace(CollapseFrom(s, inRun))
  {
    if s != [] {
      CollapseNoSpace(s[1..], IsSpace(s[0]));
    }
  }

  /** Every character of the result is `-` or a character of `s`. */
  lemma {:induction false} CollapseChars(s: string, inRun: bool)
    ensures forall i :: 0 <= i < |CollapseFrom(s, inRun)| ==>
      (CollapseFrom(s, inRun)[i] == '-' || CollapseFrom(s, inRun)[i] in s)
  {
    if s != [] {
      var r := CollapseFrom(s, inRun);
      var h := Emit(s[0], inRun);
      var t := CollapseFrom(s[1..], IsSpace(s[0]));
      CollapseChars(s[1..], IsSpace(s[0]));
      assert r == h + t;
      forall i | 0 <= i < |r| ensures r[i] == '-' || r[i] in s {
        if i >= |h| {
          assert r[i] == t[i - |h|];
          if r[i] != '-' {
            var k :| 0 <= k < |s[1..]| && s[1..][k] == r[i];
            assert s[k + 1] == r[i];
          }
        }
      }
    }
  }

  /** Text without white space is left as it is. */
  lemma {:induction false} CollapseIdentity(s: string, inRun: bool)
    requires NoSpace(s)
    ensures CollapseFrom(s, inRun) == s
  {
    if s != [] {
      CollapseIdentity(s[1..], false);
      assert s == [s[0]] + s[1..];
    }
  }

  /**
   * Each maximal run of white space, wherever it stands, becomes exactly
   * one `-` and the text on either side is collapsed on its own.
   */
  lemma CollapseRunLaw(a: string, w: string, b: string)
    requires a == [] || !IsSpace(a[|a| - 1])
    requires w != [] && AllSpace(w)
    requires b == [] || !IsSpace(b[0])
    ensures Collapse(a + w + b) == Collapse(a) + ['-'] + Collapse(b)
  {
    CollapseFromAppend(a + w, b, false);
    CollapseFromAppend(a, w, false);
    CollapseFromRun(w, false);
    CollapseFromStart(b, RunAfter(a + w, false));
  }

  // ---------------------------------------------------------------------
  // `.replace(/[áéíóú]/g, ...)`

  predicate IsAccented(c: char) {
    c == '\U{E1}' || c == '\U{E9}' || c == '\U{ED}' || c == '\U{F3}' || c == '\U{FA}'
  }

  /** á, é, í, ó, ú to a, e, i, o, u; any other character unchanged. */
  function StripAccent(c: char): (r: char)
    ensures !IsAccented(r)
    ensures !IsAccented(c) ==> r == c
    ensures IsSpace(r) <==> IsSpace(c)
    ensures IsUpper(r) <==> IsUpper(c)
  {
    if c == '\U{E1}' then 'a'
    else if c == '\U{E9}' then 'e'
    else if c == '\U{ED}' then 'i'
    else if c == '\U{F3}' then 'o'
    else if c == '\U{FA}' then 'u'
    else c
  }

  /** The five replacements, vowel by vowel. */
  lemma StripAccentTable()
    ensures StripAccent('\U{E1}') == 'a' && StripAccent('\U{E9}') == 'e' && StripAccent('\U{ED}') == 'i'
    ensures StripAccent('\U{F3}') == 'o' && StripAccent('\U{FA}') == 'u'
  {
  }

  function StripAccents(s: string): (r: string)
    ensures |r| == |s|
  {
    seq(|s|, i requires 0 <= i < |s| => StripAccent(s[i]))
  }

  predicate NoAccent(s: string) {
    forall i :: 0 <= i < |s| ==> !IsAccented(s[i])
  }

  predicate NoUpper(s: string) {
    forall i :: 0 <= i < |s| ==> !IsUpper(s[i])
  }

  lemma StripAccentsAppend(a: string, b: string)
    ensures StripAccents(a + b) == StripAccents(a) + StripAccents(b)
  {
  }

  // ---------------------------------------------------------------------
  // getCategoryClass and getDifficultyClass

  /** `getCategoryClass(category)`. */
  function CategoryClass(category: string): string
  {
    StripAccents(Collapse(Lower(category)))
  }

  /** Lowering neither makes nor removes white space. */
  lemma LowerSpace(s: string)
    ensures forall i :: 0 <= i < |s| ==> (IsSpace(Lower(s)[i]) <==> IsSpace(s[i]))
  {
  }

  /**
   * A class name has no white space, none of á/é/í/ó/ú and no upper-case
   * letter, and it is never longer than the category.
   */
  lemma CategoryClassSpec(category: string)
    ensures NoSpace(CategoryClass(category))
    ensures NoAccent(CategoryClass(category))
    ensures NoUpper(CategoryClass(category))
    ensures |CategoryClass(category)| <= |category|
  {
    var l := Lower(category);
    var c := Collapse(l);
    CollapseFromLength(l, false);
    CollapseNoSpace(l, false);
    CollapseChars(l, false);
    forall i | 0 <= i < |c| ensures !IsUpper(c[i]) {
      if c[i] != '-' {
        var k :| 0 <= k < |l| && l[k] == c[i];
        LowerCharIdempotent(category[k]);
      }
    }
  }

  lemma LowerNoUpper(s: string)
    requires NoUpper(s)
    ensures Lower(s) == s
  {
  }

  lemma StripAccentsNoAccent(s: string)
    requires NoAccent(s)
    ensures StripAccents(s) == s
  {
  }

  /** Applying `getCategoryClass` to its own output changes nothing. */
  lemma CategoryClassIdempotent(category: string)
    ensures CategoryClass(CategoryClass(category)) == CategoryClass(category)
  {
    var r := CategoryClass(category);
    CategoryClassSpec(category);
    LowerNoUpper(r);
    CollapseIdentity(r, false);
    StripAccentsNoAccent(r);
  }

  /**
   * A maximal run of white space in a category becomes exactly one `-` in
   * its class name, and the two sides are converted independently.
   */
  lemma CategoryClassRun(a: string, w: string, b: string)
    requires a == [] || !IsSpace(a[|a| - 1])
    requires w != [] && AllSpace(w)
    requires b == [] || !IsSpace(b[0])
    ensures CategoryClass(a + w + b) == CategoryClass(a) + "-" + CategoryClass(b)
  {
    LowerAppend(a + w, b);
    LowerAppend(a, w);
    LowerSpace(a);
    LowerSpace(w);
    LowerSpace(b);
    var la, lw, lb := Lower(a), Lower(w), Lower(b);
    CollapseRunLaw(la, lw, lb);
    StripAccentsAppend(Collapse(la) + ['-'], Collapse(lb));
    StripAccentsAppend(Collapse(la), ['-']);
    assert StripAccents(['-']) == "-";
  }

  /** `getDifficultyClass(difficulty)`. */
  function DifficultyClass(difficulty: string): string
  {
    "difficulty-" + Lower(difficulty)
  }

  /**
   * The difficulty class is `difficulty-` followed by the lowercased
   * difficulty, so two difficulties share a class exactly when they are
   * equal after lowering.
   */
  lemma DifficultyClassSpec(a: string, b: string)
    ensures |DifficultyClass(a)| == 11 + |a|
    ensures DifficultyClass(a)[..11] == "difficulty-"
    ensures DifficultyClass(a)[11..] == Lower(a)
    ensures DifficultyClass(a) == DifficultyClass(b) <==> Lower(a) == Lower(b)
  {
    if DifficultyClass(a) == DifficultyClass(b) {
      assert DifficultyClass(a)[11..] == DifficultyClass(b)[11..];
    }
  }

  /** Case differences disappear: the class of a lowered difficulty is the same. */
  lemma DifficultyClassLowered(d: string)
    ensures DifficultyClass(Lower(d)) == DifficultyClass(d)
  {
    LowerIdempotent(d);
  }
}
