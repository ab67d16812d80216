/** The interpolation check of the validation endpoint: the placeholder names found in a
    translation, and how the name sets of a key's locales are compared. */
module Interpolation {
  import opened Wrappers

  /** Index of the first `}` of `t`, if it has one. */
  function FirstClose(t: string): (r: Option<nat>)
    ensures r.Some? ==> r.value < |t| && t[r.value] == '}'
    decreases |t|
  {
    if t == [] then None
    else if t[0] == '}' then Some(0)
    else match FirstClose(t[1..])
      case Some(k) => Some(k + 1)
      case None => None
  }

  /** `FirstClose` finds the first `}`, and finds none only when there is none. */
  lemma {:induction false} FirstCloseIsFirst(t: string)
    ensures FirstClose(t).Some? ==> forall i :: 0 <= i < FirstClose(t).value ==> t[i] != '}'
    ensures FirstClose(t).None? ==> forall i :: 0 <= i < |t| ==> t[i] != '}'
    decreases |t|
  {
    if t != [] && t[0] != '}' {
      FirstCloseIsFirst(t[1..]);
      assert forall i :: 0 < i < |t| ==> t[i] == t[1..][i - 1];
    }
  }

  /** What `([^}]+)}` matches at the start of `t`: the length of the name, which must be at
      least one character and is followed by the first `}`. */
  function NameLength(t: string): (r: Option<nat>)
    ensures r.Some? ==> 0 < r.value < |t| && t[r.value] == '}'
  {
    match FirstClose(t)
    case Some(k) => if k > 0 then Some(k) else None
    case None => None
  }

  /** The name `NameLength` measures holds no `}`. */
  lemma NameHasNoClose(t: string)
    requires NameLength(t).Some?
    ensures forall i :: 0 <= i < NameLength(t).value ==> t[i] != '}'
  {
    FirstCloseIsFirst(t);
  }

  /** `re.findall(r'%?{([^}]+)}', s)`: scanning left to right, every non-overlapping match
      contributes its group, the text between the `{` and the next `}`. A `%` is part of a match
      only when a complete placeholder follows it. */
  function FindInterpolations(s: string): (names: seq<string>)
    ensures 3 * |names| <= |s|
    decreases |s|
  {
    if s == [] then []
    else if s[0] == '%' && |s| > 1 && s[1] == '{' && NameLength(s[2..]).Some? then
      var k := NameLength(s[2..]).value;
      [s[2..2 + k]] + FindInterpolations(s[3 + k..])
    else if s[0] == '{' && NameLength(s[1..]).Some? then
      var k := NameLength(s[1..]).value;
      [s[1..1 + k]] + FindInterpolations(s[2 + k..])
    else FindInterpolations(s[1..])
  }

  /** A name `([^}]+)` can capture: non-empty, with no `}`. */
  predicate WellFormedName(n: string) {
    n != "" && forall i :: 0 <= i < |n| ==> n[i] != '}'
  }

  /** The name `NameLength` measures at the start of `t` is well formed. */
  lemma MeasuredNameWellFormed(t: string)
    requires NameLength(t).Some?
    ensures WellFormedName(t[..NameLength(t).value])
  {
    NameHasNoClose(t);
  }

  /** Every name found is non-empty and holds no `}`. */
  lemma {:induction false} NamesWellFormed(s: string)
    ensures forall n :: n in FindInterpolations(s) ==> WellFormedName(n)
    decreases |s|
  {
    if s != [] {
      if s[0] == '%' && |s| > 1 && s[1] == '{' && NameLength(s[2..]).Some? {
        var k := NameLength(s[2..]).value;
        MeasuredNameWellFormed(s[2..]);
        assert s[2..][..k] == s[2..2 + k];
        NamesWellFormed(s[3 + k..]);
        assert FindInterpolations(s) == [s[2..2 + k]] + FindInterpolations(s[3 + k..]);
      } else if s[0] == '{' && NameLength(s[1..]).Some? {
        var k := NameLength(s[1..]).value;
        MeasuredNameWellFormed(s[1..]);
        assert s[1..][..k] == s[1..1 + k];
        NamesWellFormed(s[2 + k..]);
        assert FindInterpolations(s) == [s[1..1 + k]] + FindInterpolations(s[2 + k..]);
      } else {
        NamesWellFormed(s[1..]);
      }
    }
  }

  /** The optional leading `%` is never part of a name: `%{x}` and `{x}` give the same names. */
  lemma PercentIgnored(s: string)
    ensures FindInterpolations("%" + s) == FindInterpolations(s)
  {
    var t := "%" + s;
    assert t[1..] == s;
    if |t| > 1 && t[1] == '{' && NameLength(t[2..]).Some? {
      var k := NameLength(t[2..]).value;
      assert t[2..] == s[1..];
      assert t[2..2 + k] == s[1..1 + k];
      assert t[3 + k..] == s[2 + k..];
    }
  }

  /** `FirstClose` finds a `}` with none before it. */
  lemma {:induction false} FirstCloseExact(t: string, k: nat)
    requires k < |t| && t[k] == '}' && forall i :: 0 <= i < k ==> t[i] != '}'
    ensures FirstClose(t) == Some(k)
    decreases k
  {
    if k > 0 {
      FirstCloseExact(t[1..], k - 1);
    }
  }

  /** A placeholder followed by any text contributes its name, and the scan resumes right after
      the `}`. */
  lemma PlaceholderThen(name: string, s: string)
    requires WellFormedName(name)
    ensures FindInterpolations("{" + name + "}" + s) == [name] + FindInterpolations(s)
  {
    var t := "{" + name + "}" + s;
    var k := |name|;
    assert t[0] == '{';
    assert forall i :: 0 <= i < k ==> t[1..][i] == name[i];
    assert t[1..][k] == '}';
    FirstCloseExact(t[1..], k);
    assert NameLength(t[1..]) == Some(k);
    assert t[1..1 + k] == name;
    assert t[2 + k..] == s;
  }

  /** The same with the optional `%` in front. */
  lemma PercentPlaceholderThen(name: string, s: string)
    requires WellFormedName(name)
    ensures FindInterpolations("%{" + name + "}" + s) == [name] + FindInterpolations(s)
  {
    assert "%{" + name + "}" + s == "%" + ("{" + name + "}" + s);
    PercentIgnored("{" + name + "}" + s);
    PlaceholderThen(name, s);
  }

  /** A lone placeholder, with or without `%`, yields exactly its name. */
  lemma SinglePlaceholder(name: string)
    requires WellFormedName(name)
    ensures FindInterpolations("{" + name + "}") == [name]
    ensures FindInterpolations("%{" + name + "}") == [name]
  {
    PlaceholderThen(name, "");
    PercentPlaceholderThen(name, "");
    assert "{" + name + "}" + "" == "{" + name + "}";
    assert "%{" + name + "}" + "" == "%{" + name + "}";
    assert FindInterpolations("") == [];
  }

  /** Text with no `{` has no placeholders. */
  lemma {:induction false} NoBraceNoNames(s: string)
    requires forall i :: 0 <= i < |s| ==> s[i] != '{'
    ensures FindInterpolations(s) == []
    decreases |s|
  {
    if s != [] {
      assert !(|s| > 1 && s[1] == '{');
      NoBraceNoNames(s[1..]);
    }
  }

  /** Text with no `{` in front of the rest adds no names, even when it ends in `%`; with
      `PlaceholderThen` this covers any text between placeholders. */
  lemma {:induction false} BraceFreePrefix(p: string, s: string)
    requires forall i :: 0 <= i < |p| ==> p[i] != '{'
    ensures FindInterpolations(p + s) == FindInterpolations(s)
    decreases |p|
  {
    if p != [] {
      var t := p + s;
      assert t[0] == p[0] && t[1..] == p[1..] + s;
      if p[0] == '%' {
        assert t == "%" + (p[1..] + s);
        PercentIgnored(p[1..] + s);
      } else {
        assert FindInterpolations(t) == FindInterpolations(t[1..]);
      }
      BraceFreePrefix(p[1..], s);
    } else {
      assert p + s == s;
    }
  }

  /** The names of each locale that has a non-empty translation of one key. */
  type LocaleVariables = map<string, set<string>>

  /** `all_variables`: every name used by any of the locales. */
  function AllVariables(li: LocaleVariables): set<string> {
    set l, v | l in li && v in li[l] :: v
  }

  /** `missing_interpolations`: for each locale, the names some locale uses and it does not;
      a locale appears only when that set is non-empty. */
  function MissingInterpolations(li: LocaleVariables): LocaleVariables {
    map l | l in li && AllVariables(li) - li[l] != {} :: AllVariables(li) - li[l]
  }

  /** The names of `l` that at least one other locale lacks. */
  function InconsistentVariables(li: LocaleVariables, l: string): set<string>
    requires l in li
  {
    set v | v in li[l] && exists o :: o in li && o != l && v !in li[o]
  }

  /** `inconsistent_interpolations`: for each locale, its names that some other locale lacks;
      a locale appears only when that set is non-empty. */
  function InconsistentInterpolations(li: LocaleVariables): LocaleVariables {
    map l | l in li && InconsistentVariables(li, l) != {} :: InconsistentVariables(li, l)
  }

  lemma InAllVariables(li: LocaleVariables, v: string)
    ensures v in AllVariables(li) <==> exists o :: o in li && v in li[o]
  {
    if v in AllVariables(li) {
      var o, w :| o in li && w in li[o] && w == v;
    }
  }

  /** A name is missing from `l` exactly when `l` lacks it and some other locale uses it. */
  lemma MissingMeaning(li: LocaleVariables, l: string, v: string)
    requires l in li
    ensures (l in MissingInterpolations(li) && v in MissingInterpolations(li)[l]) <==>
            (v !in li[l] && exists o :: o in li && o != l && v in li[o])
  {
    InAllVariables(li, v);
    if v !in li[l] && exists o :: o in li && o != l && v in li[o] {
      assert v in AllVariables(li) - li[l];
      assert l in MissingInterpolations(li);
    }
  }

  /** A name inconsistent in `l` is missing from some other locale. */
  lemma InconsistentIsMissingElsewhere(li: LocaleVariables, l: string, v: string)
    requires l in InconsistentInterpolations(li) && v in InconsistentInterpolations(li)[l]
    ensures exists o :: o != l && o in MissingInterpolations(li) && v in MissingInterpolations(li)[o]
  {
    assert v in InconsistentVariables(li, l);
    var o :| o in li && o != l && v !in li[o];
    MissingMeaning(li, o, v);
  }

  /** A name missing from `l` is inconsistent in some other locale, the one that uses it. */
  lemma MissingIsInconsistentElsewhere(li: LocaleVariables, l: string, v: string)
    requires l in MissingInterpolations(li) && v in MissingInterpolations(li)[l]
    ensures exists o :: o != l && o in InconsistentInterpolations(li) && v in InconsistentInterpolations(li)[o]
  {
    MissingMeaning(li, l, v);
    var o :| o in li && o != l && v in li[o];
    assert v in InconsistentVariables(li, o);
    assert o in InconsistentInterpolations(li);
  }

  /** Either report is empty exactly when every locale uses the same names. */
  lemma ReportsEmptyIffAgree(li: LocaleVariables)
    ensures MissingInterpolations(li) == map[] <==> InconsistentInterpolations(li) == map[]
    ensures MissingInterpolations(li) == map[] <==> forall l, o :: l in li && o in li ==> li[l] == li[o]
  {
    if MissingInterpolations(li) != map[] {
      var l :| l in MissingInterpolations(li);
      var v :| v in MissingInterpolations(li)[l];
      MissingIsInconsistentElsewhere(li, l, v);
      MissingMeaning(li, l, v);
    }
    if InconsistentInterpolations(li) != map[] {
      var l :| l in InconsistentInterpolations(li);
      var v :| v in InconsistentInterpolations(li)[l];
      InconsistentIsMissingElsewhere(li, l, v);
    }
    if !(forall l, o :: l in li && o in li ==> li[l] == li[o]) {
      var l, o :| l in li && o in li && li[l] != li[o];
      if v :| v in li[l] && v !in li[o] {
        MissingMeaning(li, o, v);
      } else {
        var v :| v in li[o] && v !in li[l];
        MissingMeaning(li, l, v);
      }
    }
    if MissingInterpolations(li) != map[] {
      var l :| l in MissingInterpolations(li);
      var v :| v in MissingInterpolations(li)[l];
      MissingMeaning(li, l, v);
    }
  }

  /** With at most one locale there is nothing to compare: both reports are empty. */
  lemma SingleLocaleNoReports(li: LocaleVariables)
    requires |li| <= 1
    ensures MissingInterpolations(li) == map[] && InconsistentInterpolations(li) == map[]
  {
    forall l, o | l in li && o in li ensures l == o {
      if l != o {
        assert {l, o} <= li.Keys;
        assert |{l, o}| == 2;
        SubsetCard({l, o}, li.Keys);
      }
    }
    ReportsEmptyIffAgree(li);
  }

  lemma SubsetCard<T>(a: set<T>, b: set<T>)
    requires a <= b
    ensures |a| <= |b|
  {
    assert b == a + (b - a);
  }
}
