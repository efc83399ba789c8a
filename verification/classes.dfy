/**
 * `_toggleClass(el, class_name)`: the class attribute is split on spaces;
 * a name that is present is removed together with every token equal to it
 * ignoring case, an absent one is pushed at the end, and the tokens are
 * joined with spaces again.
 */
module Classes {
  import opened Text

  /** `toLowerCase` on one character (ASCII letters only). */
  function LowerChar(c: char): char
  {
    if 'A' <= c <= 'Z' then (c as int + 32) as char else c
  }

  function Lower(s: string): string
  {
    seq(|s|, i requires 0 <= i < |s| => LowerChar(s[i]))
  }

  predicate SameIgnoringCase(a: string, b: string)
  {
    Lower(a) == Lower(b)
  }

  /** `class_names.filter(val => val.toLowerCase() !== class_name.toLowerCase())` */
  function Without(names: seq<string>, name: string): (kept: seq<string>)
    ensures |kept| <= |names|
    ensures forall i :: 0 <= i < |kept| ==> !SameIgnoringCase(kept[i], name)
  {
    if names == [] then []
    else (if SameIgnoringCase(names[0], name) then [] else [names[0]]) + Without(names[1..], name)
  }

  /** `_toggleClass`, on the value of `className`. A name that is not a
      token is added at the end and nothing else changes. */
  function Toggle(className: string, name: string): (r: string)
    ensures name !in Split(className, " ") ==> r == className + " " + name
  {
    var names := Split(className, " ");
    JoinAppend(names, name, " ");
    JoinSplit(className, " ");
    if name in names then Join(Without(names, name), " ")
    else Join(names + [name], " ")
  }

  /** The filter keeps exactly the tokens that differ from `name` ignoring case. */
  lemma {:induction false} WithoutMembers(names: seq<string>, name: string)
    ensures forall t :: t in Without(names, name) <==> t in names && !SameIgnoringCase(t, name)
    decreases |names|
  {
    if names != [] {
      WithoutMembers(names[1..], name);
      assert names == [names[0]] + names[1..];
    }
  }

  /** The filter works token by token, so the kept tokens stay in order. */
  lemma {:induction false} WithoutAppend(a: seq<string>, b: seq<string>, name: string)
    ensures Without(a + b, name) == Without(a, name) + Without(b, name)
    decreases |a|
  {
    if a == [] {
      assert a + b == b;
    } else {
      assert (a + b)[0] == a[0] && (a + b)[1..] == a[1..] + b;
      WithoutAppend(a[1..], b, name);
    }
  }

  /** Tokens none of which matches are all kept. */
  lemma {:induction false} WithoutNoMatch(names: seq<string>, name: string)
    requires forall t :: t in names ==> !SameIgnoringCase(t, name)
    ensures Without(names, name) == names
    decreases |names|
  {
    if names != [] {
      WithoutNoMatch(names[1..], name);
      assert names == [names[0]] + names[1..];
    }
  }

  /** Toggling an absent name appends it as the last token and changes
      nothing else. */
  lemma ToggleAbsent(className: string, name: string)
    requires ' ' !in name
    requires name !in Split(className, " ")
    ensures Toggle(className, name) == className + " " + name
    ensures Split(Toggle(className, name), " ") == Split(className, " ") + [name]
  {
    var names := Split(className, " ");
    JoinAppend(names, name, " ");
    JoinSplit(className, " ");
    SplitPiecesAvoid(className, ' ');
    SplitJoin(names + [name], ' ');
  }

  /** Toggling a present name removes it and every token equal to it
      ignoring case; the remaining tokens keep their order. */
  lemma TogglePresent(className: string, name: string)
    requires name in Split(className, " ")
    ensures var rest := Without(Split(className, " "), name);
      && Toggle(className, name) == Join(rest, " ")
      && (rest == [] ==> Toggle(className, name) == "")
      && (rest != [] ==> Split(Toggle(className, name), " ") == rest)
      && forall t :: t in rest <==> t in Split(className, " ") && !SameIgnoringCase(t, name)
  {
    var names := Split(className, " ");
    var rest := Without(names, name);
    WithoutMembers(names, name);
    SplitPiecesAvoid(className, ' ');
    if rest != [] {
      SplitJoin(rest, ' ');
    }
  }

  /** Toggling flips whether the name is a token: a strict complement,
      never an unconditional set. */
  lemma ToggleFlips(className: string, name: string)
    requires ' ' !in name && name != ""
    ensures name in Split(Toggle(className, name), " ") <==> name !in Split(className, " ")
  {
    if name in Split(className, " ") {
      TogglePresent(className, name);
      var rest := Without(Split(className, " "), name);
      if rest == [] {
        SplitAbsent("", " ");
      }
    } else {
      ToggleAbsent(className, name);
    }
  }

  /** Toggling twice gives the class attribute back when no token equals the
      name ignoring case. */
  lemma ToggleTwice(className: string, name: string)
    requires ' ' !in name
    requires forall t :: t in Split(className, " ") ==> !SameIgnoringCase(t, name)
    ensures Toggle(Toggle(className, name), name) == className
  {
    var names := Split(className, " ");
    ToggleAbsent(className, name);
    assert name in names + [name];
    WithoutAppend(names, [name], name);
    WithoutNoMatch(names, name);
    assert Without([name], name) == [];
    assert names + [] == names;
    JoinSplit(className, " ");
  }

  /** Without that condition two toggles can lose a token: a token equal
      to the name only ignoring case (say "Closed" against "closed") is not
      matched by the presence test, but the second toggle filters it out. */
  lemma ToggleTwiceDropsCaseVariant(className: string, name: string, t: string)
    requires ' ' !in name
    requires name !in Split(className, " ")
    requires t in Split(className, " ") && SameIgnoringCase(t, name)
    ensures var twice := Toggle(Toggle(className, name), name);
      twice == "" || t !in Split(twice, " ")
  {
    ToggleAbsent(className, name);
    var once := Toggle(className, name);
    assert name in Split(once, " ");
    TogglePresent(once, name);
  }
}
