// Which preferences a definition flattens to: one for every path of inheritance and every property at its end.
module FlattenedSelectors {
  import opened Basics
  import opened Preferences

  // The definitions on the path behind the first, each with a dot.
  function Selector(p: seq<string>): string {
    if |p| <= 1 then "" else p[1] + "." + Selector(p[1..])
  }

  // The path leads from the name to a definition with the property.
  ghost predicate LeadsTo(s: Schema, name: string, p: seq<string>, prop: Property) {
    InheritancePath(s, p) && p[0] == name && p[|p| - 1] in s && prop in s[p[|p| - 1]].properties
  }

  function PreferenceAt(prefix: string, p: seq<string>, prop: Property): Preference {
    Preference(prop.name, prefix + Selector(p) + GoName(prop.name))
  }

  ghost predicate Inheritable(s: Schema, name: string, prefix: string, pref: Preference) {
    exists p, prop :: LeadsTo(s, name, p, prop) && pref == PreferenceAt(prefix, p, prop)
  }

  lemma {:induction false} OwnPreferencesExact(props: seq<Property>, prefix: string, pref: Preference)
    ensures pref in OwnPreferences(props, prefix) <==> exists prop :: prop in props && pref == OwnPreference(prop, prefix)
    decreases |props|
  {
    if props != [] {
      OwnPreferencesExact(props[1..], prefix, pref);
      InCons(pref, OwnPreference(props[0], prefix), OwnPreferences(props[1..], prefix));
      assert props == [props[0]] + props[1..];
      forall prop
        ensures prop in props <==> prop == props[0] || prop in props[1..]
      {
        InCons(prop, props[0], props[1..]);
      }
    }
  }

  lemma InCons<T>(x: T, head: T, tail: seq<T>)
    ensures x in [head] + tail <==> x == head || x in tail
  {
  }

  // The definition's own properties are those at the end of the path that is the name alone.
  lemma OwnAreInheritable(s: Schema, name: string, prefix: string, prop: Property)
    requires name in s && prop in s[name].properties
    ensures Inheritable(s, name, prefix, OwnPreference(prop, prefix))
  {
    assert LeadsTo(s, name, [name], prop);
    assert prefix + "" == prefix;
    assert OwnPreference(prop, prefix) == PreferenceAt(prefix, [name], prop);
  }

  lemma LongerPath(s: Schema, name: string, base: string, prefix: string, q: seq<string>, prop: Property)
    requires name in s && Inherits(s[name].allOf, s, base) && LeadsTo(s, base, q, prop)
    ensures LeadsTo(s, name, [name] + q, prop)
    ensures PreferenceAt(prefix + base + ".", q, prop) == PreferenceAt(prefix, [name] + q, prop)
  {
    var p := [name] + q;
    assert p[1..] == q && p[|p| - 1] == q[|q| - 1];
    Regrouped(prefix, base, Selector(q), GoName(prop.name));
  }

  lemma Regrouped(prefix: string, base: string, selector: string, field: string)
    ensures prefix + base + "." + selector + field == prefix + (base + "." + selector) + field
  {
  }

  // An inheritable preference is its own or inherited through one of the references.
  lemma InheritableSplits(s: Schema, name: string, prefix: string, pref: Preference)
    requires name in s && Inheritable(s, name, prefix, pref)
    ensures (exists prop :: prop in s[name].properties && pref == OwnPreference(prop, prefix))
      || exists base :: Inherits(s[name].allOf, s, base) && Inheritable(s, base, prefix + base + ".", pref)
  {
    var p, prop :| LeadsTo(s, name, p, prop) && pref == PreferenceAt(prefix, p, prop);
    if |p| == 1 {
      assert prefix + "" == prefix;
      assert pref == OwnPreference(prop, prefix);
    } else {
      assert p == [name] + p[1..] && p[1..][|p| - 2] == p[|p| - 1];
      assert LeadsTo(s, p[1], p[1..], prop);
      LongerPath(s, name, p[1], prefix, p[1..], prop);
      assert Inheritable(s, p[1], prefix + p[1] + ".", pref);
    }
  }

  // A validated definition flattens to exactly its inheritable preferences: each property with
  // the selector that names the definitions it comes through.
  lemma {:induction false} FlattenedExact(s: Schema, lex: Lexis, name: string, prefix: string, visiting: set<string>, pref: Preference)
    requires Validated(s, lex, name, visiting) && name in s
    ensures pref in Flattened(s, lex, name, prefix, visiting) <==> Inheritable(s, name, prefix, pref)
    decreases s.Keys - visiting, 0
  {
    ValidatedBases(s, lex, name, visiting);
    var refs, props := s[name].allOf, s[name].properties;
    OwnPreferencesExact(props, prefix, pref);
    FlattenedBasesExact(s, lex, refs, prefix, visiting + {name}, pref);
    if prop :| prop in props && pref == OwnPreference(prop, prefix) {
      OwnAreInheritable(s, name, prefix, prop);
    }
    if base :| Inherits(refs, s, base) && Inheritable(s, base, prefix + base + ".", pref) {
      var q, prop :| LeadsTo(s, base, q, prop) && pref == PreferenceAt(prefix + base + ".", q, prop);
      LongerPath(s, name, base, prefix, q, prop);
    }
    if Inheritable(s, name, prefix, pref) {
      InheritableSplits(s, name, prefix, pref);
    }
  }

  lemma {:induction false} FlattenedBasesExact(s: Schema, lex: Lexis, refs: seq<string>, prefix: string, visiting: set<string>, pref: Preference)
    requires BasesValidated(s, lex, refs, visiting)
    ensures pref in FlattenedBases(s, lex, refs, prefix, visiting)
      <==> exists base :: Inherits(refs, s, base) && Inheritable(s, base, prefix + base + ".", pref)
    decreases s.Keys - visiting, |refs| + 1
  {
    if refs != [] {
      var base := Resolve(s, refs[0]).value;
      assert BasesValidated(s, lex, refs[1..], visiting) by {
        assert forall i :: 0 <= i < |refs[1..]| ==> refs[1..][i] == refs[i + 1];
      }
      FlattenedExact(s, lex, base, prefix + base + ".", visiting, pref);
      FlattenedBasesExact(s, lex, refs[1..], prefix, visiting, pref);
      InheritsCons(refs, s);
    }
  }

  lemma InheritsCons(refs: seq<string>, s: Schema)
    requires refs != []
    ensures forall base :: Inherits(refs, s, base) <==> Resolve(s, refs[0]) == Ok(base) || Inherits(refs[1..], s, base)
  {
    forall base
      ensures Inherits(refs, s, base) <==> Resolve(s, refs[0]) == Ok(base) || Inherits(refs[1..], s, base)
    {
      assert forall i :: 0 < i < |refs| ==> refs[i] == refs[1..][i - 1];
      if Inherits(refs[1..], s, base) {
        var i :| 0 <= i < |refs[1..]| && Resolve(s, refs[1..][i]) == Ok(base);
        assert refs[i + 1] == refs[1..][i];
      }
    }
  }

  // Its own come last, in their order; those that come through the first reference come first.
  lemma OwnComeLast(s: Schema, lex: Lexis, name: string, prefix: string, visiting: set<string>, i: nat)
    requires Validated(s, lex, name, visiting) && name in s && i < |s[name].properties|
    ensures var all, props := Flattened(s, lex, name, prefix, visiting), s[name].properties;
      |props| <= |all| && all[|all| - |props| + i] == Preference(props[i].name, prefix + GoName(props[i].name))
  {
    OwnPreferenceAt(s[name].properties, prefix, i);
  }

  lemma FirstComesFirst(s: Schema, lex: Lexis, name: string, prefix: string, visiting: set<string>, base: string)
    requires Validated(s, lex, name, visiting) && name in s && s[name].allOf != []
    requires Resolve(s, s[name].allOf[0]) == Ok(base)
    ensures Validated(s, lex, base, visiting + {name})
    ensures Flattened(s, lex, base, prefix + base + ".", visiting + {name}) <= Flattened(s, lex, name, prefix, visiting)
  {
    ValidatedBases(s, lex, name, visiting);
  }
}
