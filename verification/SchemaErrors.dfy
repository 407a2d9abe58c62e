// The errors of preference validation: each names a fault that the schema has.
module SchemaErrors {
  import opened Basics
  import opened Preferences
  import opened ValidSchemas

  // ---------------------------------------------------------------- what each error claims

  // Two references give the field, or one and an own property.
  ghost predicate Clashes(s: Schema, d: string, field: string)
    requires d in s
  {
    (exists i, j :: 0 <= i < j < |s[d].allOf| && OfferedBy(s, s[d].allOf[i], field) && OfferedBy(s, s[d].allOf[j], field))
    || (Declares(s, d, field) && exists i :: 0 <= i < |s[d].allOf| && OfferedBy(s, s[d].allOf[i], field))
  }

  // The reference's Go field has no usable name or is there already.
  ghost predicate BadBase(s: Schema, lex: Lexis, refs: seq<string>, field: string) {
    exists i :: 0 <= i < |refs| && Resolve(s, refs[i]) == Ok(field) && (!GoFieldName(lex, field) || refs[i] in refs[..i])
  }

  // So has or is the property's.
  ghost predicate BadProperty(s: Schema, lex: Lexis, def: Definition, name: string) {
    exists i :: 0 <= i < |def.properties| && def.properties[i].name == name
      && (!GoFieldName(lex, GoName(name)) || Inherits(def.allOf, s, GoName(name)) || GoName(name) in GoNames(def.properties[..i]))
  }

  function GoNames(props: seq<Property>): set<string> {
    set i | 0 <= i < |props| :: GoName(props[i].name)
  }

  ghost predicate HasFault(s: Schema, lex: Lexis, d: string, e: Error) {
    match e
    case UnsupportedReference(ref) => d in s && ref in s[d].allOf && !("#/$defs/" <= ref)
    case UnknownReference(ref) => d in s && ref in s[d].allOf && "#/$defs/" <= ref && !exists base :: IsReferenceTo(s, ref, base)
    case CyclicInheritance(name) => false
    case InvalidDefinitionName(name) => name == d && !GoFieldName(lex, d)
    case NotAnObject(name) => name == d && (d in s ==> s[d].kind != "object")
    case InvalidOrDuplicateGoField(owner, field) =>
      owner == d && d in s && (BadBase(s, lex, s[d].allOf, field) || BadProperty(s, lex, s[d], field))
    case InvalidField(owner, field) => owner == d && Declares(s, d, field) && !lex.identifier(field)
    case DuplicateInherited(owner, fields) => owner == d && d in s && fields != {} && forall field :: field in fields ==> Clashes(s, d, field)
    case Unsupported(what) => false
  }

  // One of its properties raises it.
  predicate Complains(s: Schema, d: string, e: Error) {
    d in s && exists i :: 0 <= i < |s[d].properties| && s[d].properties[i].complaint == Some(e)
  }

  ghost predicate OnCycle(s: Schema, name: string) {
    exists p :: InheritancePath(s, p) && |p| > 1 && p[0] == name && p[|p| - 1] == name
  }

  // The error is that of a definition reached from the name, or a circle below it.
  ghost predicate IsTrue(s: Schema, lex: Lexis, name: string, visiting: set<string>, e: Error) {
    (exists d :: Reached(s, name, d) && (HasFault(s, lex, d, e) || Complains(s, d, e)))
    || (e.CyclicInheritance? && Reached(s, name, e.name) && (e.name in visiting || OnCycle(s, e.name)))
  }

  // ---------------------------------------------------------------- references

  lemma {:induction false} InheritedSnoc(s: Schema, lex: Lexis, refs: seq<string>, ref: string, visiting: set<string>)
    ensures Inherited(s, lex, refs + [ref], visiting) == Inherited(s, lex, refs, visiting) + FieldsIn(s, lex, ref, visiting)
    ensures Bases(s, refs + [ref]) == Bases(s, refs) + if Resolve(s, ref).Ok? then {Resolve(s, ref).value} else {}
    decreases |refs|
  {
    if refs == [] {
      assert refs + [ref] == [ref] && [ref][1..] == [];
    } else {
      assert (refs + [ref])[1..] == refs[1..] + [ref] && (refs + [ref])[0] == refs[0];
      InheritedSnoc(s, lex, refs[1..], ref, visiting);
    }
  }

  // What the loop over the references holds when it comes to the i-th.
  ghost predicate Gathered(s: Schema, lex: Lexis, refs: seq<string>, i: nat, visiting: set<string>, taken: Taken)
    requires i <= |refs|
  {
    taken == Taken(Inherited(s, lex, refs[..i], visiting), Bases(s, refs[..i]))
  }

  // The error comes from below one of the references.
  ghost predicate FromBelow(s: Schema, lex: Lexis, refs: seq<string>, visiting: set<string>, e: Error) {
    exists i :: 0 <= i < |refs| && Resolve(s, refs[i]).Ok? && Fields(s, lex, Resolve(s, refs[i]).value, visiting) == Err(e)
  }

  lemma {:induction false} BasesError(s: Schema, lex: Lexis, owner: string, i: nat, visiting: set<string>, taken: Taken, e: Error)
    requires owner in s && i <= |s[owner].allOf| && Gathered(s, lex, s[owner].allOf, i, visiting, taken)
    requires AddBases(s, lex, owner, s[owner].allOf[i..], visiting, taken) == Err(e)
    ensures HasFault(s, lex, owner, e) || FromBelow(s, lex, s[owner].allOf, visiting, e)
    decreases |s[owner].allOf| - i
  {
    var refs := s[owner].allOf;
    var ref := refs[i..][0];
    assert ref == refs[i] && ref in refs && refs[i..][1..] == refs[i + 1..];
    if Resolve(s, ref).Err? {
      UnresolvedIsTrue(s, ref);
    } else if JoinsBase(s, lex, ref, visiting, taken) {
      var more := WithBase(s, lex, ref, visiting, taken);
      AddBaseStep(s, lex, owner, refs[i..], visiting, taken);
      assert refs[..i + 1] == refs[..i] + [ref];
      InheritedSnoc(s, lex, refs[..i], ref, visiting);
      BasesError(s, lex, owner, i + 1, visiting, more, e);
    } else {
      BaseRefused(s, lex, owner, i, visiting, taken, e);
    }
  }

  lemma UnresolvedIsTrue(s: Schema, ref: string)
    requires Resolve(s, ref).Err?
    ensures Resolve(s, ref).error == if "#/$defs/" <= ref then UnknownReference(ref) else UnsupportedReference(ref)
    ensures !exists base :: IsReferenceTo(s, ref, base)
  {
    forall base
      ensures !IsReferenceTo(s, ref, base)
    {
      ReferencesNamed(s, ref, base);
    }
    ReferencesNamed(s, ref, "");
  }

  lemma BaseRefused(s: Schema, lex: Lexis, owner: string, i: nat, visiting: set<string>, taken: Taken, e: Error)
    requires owner in s && i < |s[owner].allOf| && Gathered(s, lex, s[owner].allOf, i, visiting, taken)
    requires Resolve(s, s[owner].allOf[i]).Ok? && !JoinsBase(s, lex, s[owner].allOf[i], visiting, taken)
    requires AddBases(s, lex, owner, s[owner].allOf[i..], visiting, taken) == Err(e)
    ensures HasFault(s, lex, owner, e) || FromBelow(s, lex, s[owner].allOf, visiting, e)
  {
    var refs := s[owner].allOf;
    var base := Resolve(s, refs[i]).value;
    assert refs[i..][0] == refs[i];
    if !GoFieldName(lex, base) || base in taken.goFields {
      BaseTaken(s, refs, i);
      assert BadBase(s, lex, refs, base);
    } else if Fields(s, lex, base, visiting).Ok? {
      var common := FieldsIn(s, lex, refs[i], visiting) * taken.fields;
      assert e == DuplicateInherited(owner, common);
      var shared :| shared in FieldsIn(s, lex, refs[i], visiting) && shared in taken.fields;
      assert shared in common;
      forall f | f in common
        ensures Clashes(s, owner, f)
      {
        InheritedExact(s, lex, refs[..i], visiting, f);
        var j :| 0 <= j < |refs[..i]| && f in FieldsIn(s, lex, refs[..i][j], visiting);
        FoundIsOffered(s, lex, refs[i], visiting, f);
        FoundIsOffered(s, lex, refs[j], visiting, f);
        assert OfferedBy(s, refs[j], f) && OfferedBy(s, refs[i], f);
      }
    }
  }

  lemma BaseTaken(s: Schema, refs: seq<string>, i: nat)
    requires i < |refs| && Resolve(s, refs[i]).Ok?
    ensures Resolve(s, refs[i]).value in Bases(s, refs[..i]) <==> refs[i] in refs[..i]
  {
    BasesExact(s, refs[..i], Resolve(s, refs[i]).value);
    forall j | 0 <= j < i
      ensures Resolve(s, refs[..i][j]) == Ok(Resolve(s, refs[i]).value) <==> refs[j] == refs[i]
    {
      SameBase(s, refs[i], refs[j]);
    }
  }

  lemma FoundIsOffered(s: Schema, lex: Lexis, ref: string, visiting: set<string>, f: string)
    requires f in FieldsIn(s, lex, ref, visiting)
    ensures OfferedBy(s, ref, f)
  {
    ValidationExact(s, lex, Resolve(s, ref).value, visiting);
  }

  // ---------------------------------------------------------------- properties

  lemma {:induction false} PropertiesError(s: Schema, lex: Lexis, owner: string, i: nat, inherited: Taken, taken: Taken, e: Error)
    requires owner in s && i <= |s[owner].properties|
    requires taken.fields == inherited.fields + PropertyNames(s[owner].properties[..i])
    requires taken.goFields == inherited.goFields + GoNames(s[owner].properties[..i])
    requires AddProperties(lex, owner, s[owner].properties[i..], taken) == Err(e)
    ensures Complains(s, owner, e) || PropertyFault(s, lex, owner, inherited, e)
    decreases |s[owner].properties| - i
  {
    var props := s[owner].properties;
    var prop := props[i..][0];
    assert prop == props[i] && props[i..][1..] == props[i + 1..];
    if JoinsOne(lex, prop, taken) {
      AddPropertyExact(lex, owner, prop, taken);
      NamesSnoc(props, i);
      PropertiesError(s, lex, owner, i + 1, inherited, WithProperty(taken, prop), e);
    } else {
      PropertyRefused(s, lex, owner, i, inherited, taken, e);
    }
  }

  // The error is one of a property, given what is inherited.
  ghost predicate PropertyFault(s: Schema, lex: Lexis, owner: string, inherited: Taken, e: Error)
    requires owner in s
  {
    match e
    case InvalidField(d, field) => d == owner && Declares(s, owner, field) && !lex.identifier(field)
    case InvalidOrDuplicateGoField(d, field) => d == owner && PropertyUnusable(s[owner].properties, lex, inherited, field)
    case DuplicateInherited(d, fields) =>
      d == owner && exists field :: fields == {field} && Declares(s, owner, field) && field in inherited.fields
    case _ => false
  }

  predicate PropertyUnusable(props: seq<Property>, lex: Lexis, inherited: Taken, name: string) {
    exists i :: 0 <= i < |props| && props[i].name == name
      && (!GoFieldName(lex, GoName(name)) || GoName(name) in inherited.goFields || GoName(name) in GoNames(props[..i]))
  }

  lemma NamesSnoc(props: seq<Property>, i: nat)
    requires i < |props|
    ensures PropertyNames(props[..i + 1]) == PropertyNames(props[..i]) + {props[i].name}
    ensures GoNames(props[..i + 1]) == GoNames(props[..i]) + {GoName(props[i].name)}
  {
    assert forall k :: 0 <= k < i ==> props[..i + 1][k] == props[..i][k];
    assert props[..i + 1][i] == props[i];
  }

  lemma PropertyRefused(s: Schema, lex: Lexis, owner: string, i: nat, inherited: Taken, taken: Taken, e: Error)
    requires owner in s && i < |s[owner].properties|
    requires taken.fields == inherited.fields + PropertyNames(s[owner].properties[..i])
    requires taken.goFields == inherited.goFields + GoNames(s[owner].properties[..i])
    requires AddProperty(lex, owner, s[owner].properties[i], taken) == Err(e)
    ensures Complains(s, owner, e) || PropertyFault(s, lex, owner, inherited, e)
  {
    var props := s[owner].properties;
    var name := props[i].name;
    assert name in PropertyNames(props);
    if lex.identifier(name) && GoFieldName(lex, GoName(name)) && GoName(name) !in taken.goFields && name in taken.fields {
      if name in PropertyNames(props[..i]) {
        SameGoName(props[..i], name);
      }
      assert e == DuplicateInherited(owner, {name});
    }
  }

  lemma SameGoName(props: seq<Property>, name: string)
    requires name in PropertyNames(props)
    ensures GoName(name) in GoNames(props)
  {
    var i :| 0 <= i < |props| && props[i].name == name;
    assert GoName(props[i].name) in GoNames(props);
  }

  lemma PropertyFaultIsTrue(s: Schema, lex: Lexis, owner: string, visiting: set<string>, inherited: Taken, e: Error)
    requires owner in s && PropertyFault(s, lex, owner, inherited, e)
    requires inherited == Taken(Inherited(s, lex, s[owner].allOf, visiting), Bases(s, s[owner].allOf))
    ensures HasFault(s, lex, owner, e)
  {
    var refs := s[owner].allOf;
    match e
    case InvalidOrDuplicateGoField(_, field) => BasesExact(s, refs, GoName(field));
    case DuplicateInherited(_, fields) =>
      var field :| fields == {field} && Declares(s, owner, field) && field in inherited.fields;
      InheritedExact(s, lex, refs, visiting, field);
      var i :| 0 <= i < |refs| && field in FieldsIn(s, lex, refs[i], visiting);
      FoundIsOffered(s, lex, refs[i], visiting, field);
    case _ =>
  }

  // ---------------------------------------------------------------- all errors

  // Every error that validation reports is true of a definition reached from the one validated.
  lemma {:induction false} ErrorIsTrue(s: Schema, lex: Lexis, name: string, visiting: set<string>, e: Error)
    requires Fields(s, lex, name, visiting) == Err(e)
    ensures IsTrue(s, lex, name, visiting, e)
    decreases s.Keys - visiting
  {
    ReachesItself(s, name);
    if name !in visiting && GoFieldName(lex, name) && name in s && s[name].kind == "object" {
      var inner, refs := visiting + {name}, s[name].allOf;
      assert refs[0..] == refs && refs[..0] == [];
      var added := AddBases(s, lex, name, refs, inner, Taken({}, {}));
      if added.Err? {
        BasesError(s, lex, name, 0, inner, Taken({}, {}), e);
        if !HasFault(s, lex, name, e) {
          var i :| 0 <= i < |refs| && Resolve(s, refs[i]).Ok? && Fields(s, lex, Resolve(s, refs[i]).value, inner) == Err(e);
          ErrorIsTrue(s, lex, Resolve(s, refs[i]).value, inner, e);
          TrueAbove(s, lex, name, Resolve(s, refs[i]).value, visiting, e);
        }
      } else {
        OwnErrorIsTrue(s, lex, name, inner, e);
      }
    }
  }

  lemma OwnErrorIsTrue(s: Schema, lex: Lexis, name: string, inner: set<string>, e: Error)
    requires name in s && AddBases(s, lex, name, s[name].allOf, inner, Taken({}, {})).Ok?
    requires AddProperties(lex, name, s[name].properties, AddBases(s, lex, name, s[name].allOf, inner, Taken({}, {})).value) == Err(e)
    ensures HasFault(s, lex, name, e) || Complains(s, name, e)
  {
    var props := s[name].properties;
    var inherited := Taken(Inherited(s, lex, s[name].allOf, inner), Bases(s, s[name].allOf));
    AddBasesExact(s, lex, name, s[name].allOf, inner, Taken({}, {}));
    assert {} + inherited.fields == inherited.fields && {} + inherited.goFields == inherited.goFields;
    assert props[0..] == props && props[..0] == [];
    PropertiesError(s, lex, name, 0, inherited, inherited, e);
    if !Complains(s, name, e) {
      PropertyFaultIsTrue(s, lex, name, inner, inherited, e);
    }
  }

  lemma TrueAbove(s: Schema, lex: Lexis, name: string, base: string, visiting: set<string>, e: Error)
    requires name in s && Inherits(s[name].allOf, s, base) && IsTrue(s, lex, base, visiting + {name}, e)
    ensures IsTrue(s, lex, name, visiting, e)
  {
    if d :| Reached(s, base, d) && (HasFault(s, lex, d, e) || Complains(s, d, e)) {
      ReachedThrough(s, name, base, d);
    } else {
      ReachedThrough(s, name, base, e.name);
      if e.name == name {
        var q :| InheritancePath(s, q) && q[0] == base && q[|q| - 1] == name;
        PathGrows(s, name, base, q);
        assert ([name] + q)[|q|] == name;
      }
    }
  }
}
