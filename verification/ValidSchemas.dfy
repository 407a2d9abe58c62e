// Which preference schemas pass validation: what each definition must be, and how inherited ones may meet.
module ValidSchemas {
  import opened Basics
  import opened Preferences

  // ---------------------------------------------------------------- what is asked

  predicate IsReferenceTo(s: Schema, ref: string, base: string) {
    ref == "#/$defs/" + base && base in s
  }

  lemma ReferencesNamed(s: Schema, ref: string, base: string)
    ensures Resolve(s, ref) == Ok(base) <==> IsReferenceTo(s, ref, base)
    ensures !("#/$defs/" <= ref) ==> Resolve(s, ref) == Err(UnsupportedReference(ref))
    ensures "#/$defs/" <= ref && Resolve(s, ref).Err? ==> Resolve(s, ref) == Err(UnknownReference(ref))
  {
    assert ref == "#/$defs/" + base ==> ref[|"#/$defs/"|..] == base;
    assert "#/$defs/" <= ref ==> ref == "#/$defs/" + ref[|"#/$defs/"|..];
  }

  predicate GoFieldName(lex: Lexis, name: string) {
    lex.identifier(name) && lex.exported(name)
  }

  // The property has usable names, and nothing to complain about.
  predicate PropertyFine(lex: Lexis, prop: Property) {
    lex.identifier(prop.name) && GoFieldName(lex, GoName(prop.name)) && prop.complaint == None
  }

  // A definition on its own: an object with a Go name whose references all name definitions,
  // each a different one, and whose properties are fine and become Go fields that differ from
  // those and from each other.
  ghost predicate DefinitionFine(s: Schema, lex: Lexis, name: string) {
    GoFieldName(lex, name) && name in s && s[name].kind == "object"
    && (forall i :: 0 <= i < |s[name].allOf| ==> BaseFine(s, lex, s[name].allOf[i]))
    && Different(s[name].allOf)
    && OwnFine(lex, s[name].properties)
    && forall i, base :: 0 <= i < |s[name].properties| && Inherits(s[name].allOf, s, base) ==> GoName(s[name].properties[i].name) != base
  }

  ghost predicate BaseFine(s: Schema, lex: Lexis, ref: string) {
    Resolve(s, ref).Ok? && GoFieldName(lex, Resolve(s, ref).value)
  }

  predicate Different(refs: seq<string>) {
    forall i, j :: 0 <= i < j < |refs| ==> refs[i] != refs[j]
  }

  predicate OwnFine(lex: Lexis, props: seq<Property>) {
    (forall i :: 0 <= i < |props| ==> PropertyFine(lex, props[i]))
    && forall i, j :: 0 <= i < j < |props| ==> GoName(props[i].name) != GoName(props[j].name)
  }

  // The definition is the name's own or inherited through any number of others.
  ghost predicate Reached(s: Schema, name: string, d: string) {
    exists p :: InheritancePath(s, p) && p[0] == name && p[|p| - 1] == d
  }

  function PropertyNames(props: seq<Property>): set<string> {
    set i | 0 <= i < |props| :: props[i].name
  }

  predicate Declares(s: Schema, d: string, field: string) {
    d in s && field in PropertyNames(s[d].properties)
  }

  ghost predicate Offers(s: Schema, name: string, field: string) {
    exists d :: Reached(s, name, d) && Declares(s, d, field)
  }

  // No preference comes in twice, through two references or as an own one that is inherited too.
  ghost predicate NoClash(s: Schema, name: string)
    requires name in s
  {
    (forall i, j, field :: 0 <= i < j < |s[name].allOf| && OfferedBy(s, s[name].allOf[i], field) ==> !OfferedBy(s, s[name].allOf[j], field))
    && forall i, field :: 0 <= i < |s[name].allOf| && OfferedBy(s, s[name].allOf[i], field) ==> !Declares(s, name, field)
  }

  ghost predicate OfferedBy(s: Schema, ref: string, field: string) {
    Resolve(s, ref).Ok? && Offers(s, Resolve(s, ref).value, field)
  }

  // No definition inherits from itself, or from one of these.
  ghost predicate NoCycle(s: Schema, name: string, visiting: set<string>) {
    forall p :: InheritancePath(s, p) && p[0] == name ==> Simple(p, visiting)
  }

  predicate Simple(p: seq<string>, visiting: set<string>) {
    (forall i :: 0 <= i < |p| ==> p[i] !in visiting) && forall i, j :: 0 <= i < j < |p| ==> p[i] != p[j]
  }

  ghost predicate AllFine(s: Schema, lex: Lexis, name: string) {
    forall d :: Reached(s, name, d) ==> DefinitionFine(s, lex, d) && NoClash(s, d)
  }

  // ---------------------------------------------------------------- properties

  // The properties can join what is taken.
  predicate Joins(lex: Lexis, props: seq<Property>, taken: Taken) {
    OwnFine(lex, props) && forall i :: 0 <= i < |props| ==> GoName(props[i].name) !in taken.goFields && props[i].name !in taken.fields
  }

  lemma {:induction false} AddPropertiesExact(lex: Lexis, owner: string, props: seq<Property>, taken: Taken)
    ensures AddProperties(lex, owner, props, taken).Ok? <==> Joins(lex, props, taken)
    ensures AddProperties(lex, owner, props, taken).Ok? ==>
      AddProperties(lex, owner, props, taken).value.fields == taken.fields + PropertyNames(props)
    decreases |props|
  {
    if props != [] {
      AddPropertiesExact(lex, owner, props[1..], WithProperty(taken, props[0]));
      JoinsCons(lex, props, taken);
      AddPropertyExact(lex, owner, props[0], taken);
      NamesCons(props);
    }
  }

  function WithProperty(taken: Taken, prop: Property): Taken {
    Taken(taken.fields + {prop.name}, taken.goFields + {GoName(prop.name)})
  }

  predicate JoinsOne(lex: Lexis, prop: Property, taken: Taken) {
    PropertyFine(lex, prop) && GoName(prop.name) !in taken.goFields && prop.name !in taken.fields
  }

  lemma AddPropertyExact(lex: Lexis, owner: string, prop: Property, taken: Taken)
    ensures AddProperty(lex, owner, prop, taken).Ok? <==> JoinsOne(lex, prop, taken)
    ensures AddProperty(lex, owner, prop, taken).Ok? ==> AddProperty(lex, owner, prop, taken).value == WithProperty(taken, prop)
  {
  }

  lemma NamesCons(props: seq<Property>)
    requires props != []
    ensures PropertyNames(props) == {props[0].name} + PropertyNames(props[1..])
  {
    var rest := props[1..];
    assert forall i :: 0 <= i < |rest| ==> rest[i] == props[i + 1];
    assert forall i :: 0 < i < |props| ==> props[i] == rest[i - 1];
  }

  lemma JoinsCons(lex: Lexis, props: seq<Property>, taken: Taken)
    requires props != []
    ensures Joins(lex, props, taken) <==> JoinsOne(lex, props[0], taken) && Joins(lex, props[1..], WithProperty(taken, props[0]))
  {
    if Joins(lex, props, taken) {
      JoinsApart(lex, props, taken);
    }
    if JoinsOne(lex, props[0], taken) && Joins(lex, props[1..], WithProperty(taken, props[0])) {
      JoinsTogether(lex, props, taken);
    }
  }

  lemma JoinsApart(lex: Lexis, props: seq<Property>, taken: Taken)
    requires props != [] && Joins(lex, props, taken)
    ensures JoinsOne(lex, props[0], taken) && Joins(lex, props[1..], WithProperty(taken, props[0]))
  {
    var rest := props[1..];
    assert forall i :: 0 <= i < |rest| ==> rest[i] == props[i + 1];
    assert forall i :: 0 <= i < |rest| ==> GoName(rest[i].name) != GoName(props[0].name);
  }

  lemma JoinsTogether(lex: Lexis, props: seq<Property>, taken: Taken)
    requires props != [] && JoinsOne(lex, props[0], taken) && Joins(lex, props[1..], WithProperty(taken, props[0]))
    ensures Joins(lex, props, taken)
  {
    var rest := props[1..];
    assert forall j :: 0 < j < |props| ==> props[j] == rest[j - 1];
  }

  // ---------------------------------------------------------------- bases

  // What the validator finds below a reference.
  function FieldsIn(s: Schema, lex: Lexis, ref: string, visiting: set<string>): set<string> {
    if Resolve(s, ref).Ok? && Fields(s, lex, Resolve(s, ref).value, visiting).Ok?
    then Fields(s, lex, Resolve(s, ref).value, visiting).value else {}
  }

  ghost predicate JoinsBase(s: Schema, lex: Lexis, ref: string, visiting: set<string>, taken: Taken) {
    BaseFine(s, lex, ref) && Resolve(s, ref).value !in taken.goFields
    && Validated(s, lex, Resolve(s, ref).value, visiting) && FieldsIn(s, lex, ref, visiting) !! taken.fields
  }

  // The bases can join what is taken.
  ghost predicate JoinBases(s: Schema, lex: Lexis, refs: seq<string>, visiting: set<string>, taken: Taken) {
    (forall i :: 0 <= i < |refs| ==> JoinsBase(s, lex, refs[i], visiting, taken))
    && Different(refs) && Apart(s, lex, refs, visiting)
  }

  ghost predicate Apart(s: Schema, lex: Lexis, refs: seq<string>, visiting: set<string>) {
    forall i, j :: 0 <= i < j < |refs| ==> FieldsIn(s, lex, refs[i], visiting) !! FieldsIn(s, lex, refs[j], visiting)
  }

  function WithBase(s: Schema, lex: Lexis, ref: string, visiting: set<string>, taken: Taken): Taken
    requires Resolve(s, ref).Ok?
  {
    Taken(taken.fields + FieldsIn(s, lex, ref, visiting), taken.goFields + {Resolve(s, ref).value})
  }

  lemma JoinBasesCons(s: Schema, lex: Lexis, refs: seq<string>, visiting: set<string>, taken: Taken)
    requires refs != [] && JoinsBase(s, lex, refs[0], visiting, taken)
    ensures JoinBases(s, lex, refs, visiting, taken)
      <==> JoinBases(s, lex, refs[1..], visiting, WithBase(s, lex, refs[0], visiting, taken))
  {
    var rest, more := refs[1..], WithBase(s, lex, refs[0], visiting, taken);
    assert forall i :: 0 <= i < |rest| ==> rest[i] == refs[i + 1];
    assert forall i :: 0 < i < |refs| ==> refs[i] == rest[i - 1];
    forall i | 0 < i < |refs|
      ensures JoinsBase(s, lex, refs[i], visiting, more) <==>
        JoinsBase(s, lex, refs[i], visiting, taken) && refs[i] != refs[0]
        && FieldsIn(s, lex, refs[0], visiting) !! FieldsIn(s, lex, refs[i], visiting)
    {
      SameBase(s, refs[0], refs[i]);
    }
  }

  lemma SameBase(s: Schema, ref: string, other: string)
    requires Resolve(s, ref).Ok?
    ensures Resolve(s, ref) == Resolve(s, other) <==> ref == other
  {
    ReferencesNamed(s, ref, Resolve(s, ref).value);
    ReferencesNamed(s, other, Resolve(s, ref).value);
  }

  // Every preference found below one of the references.
  function Inherited(s: Schema, lex: Lexis, refs: seq<string>, visiting: set<string>): set<string> {
    if refs == [] then {} else FieldsIn(s, lex, refs[0], visiting) + Inherited(s, lex, refs[1..], visiting)
  }

  function Bases(s: Schema, refs: seq<string>): set<string> {
    if refs == [] then {}
    else (if Resolve(s, refs[0]).Ok? then {Resolve(s, refs[0]).value} else {}) + Bases(s, refs[1..])
  }

  lemma {:induction false} AddBasesExact(s: Schema, lex: Lexis, owner: string, refs: seq<string>, visiting: set<string>, taken: Taken)
    ensures AddBases(s, lex, owner, refs, visiting, taken).Ok? <==> JoinBases(s, lex, refs, visiting, taken)
    ensures AddBases(s, lex, owner, refs, visiting, taken).Ok? ==>
      AddBases(s, lex, owner, refs, visiting, taken).value
      == Taken(taken.fields + Inherited(s, lex, refs, visiting), taken.goFields + Bases(s, refs))
    decreases |refs|
  {
    if refs != [] && JoinsBase(s, lex, refs[0], visiting, taken) {
      var more := WithBase(s, lex, refs[0], visiting, taken);
      AddBasesExact(s, lex, owner, refs[1..], visiting, more);
      JoinBasesCons(s, lex, refs, visiting, taken);
      AddBaseStep(s, lex, owner, refs, visiting, taken);
      Collected(taken.fields, FieldsIn(s, lex, refs[0], visiting), Inherited(s, lex, refs[1..], visiting));
      Collected(taken.goFields, {Resolve(s, refs[0]).value}, Bases(s, refs[1..]));
    } else if refs != [] {
      AddBaseFails(s, lex, owner, refs, visiting, taken);
    }
  }

  lemma Collected(a: set<string>, b: set<string>, c: set<string>)
    ensures a + b + c == a + (b + c)
  {
  }

  lemma AddBaseStep(s: Schema, lex: Lexis, owner: string, refs: seq<string>, visiting: set<string>, taken: Taken)
    requires refs != [] && JoinsBase(s, lex, refs[0], visiting, taken)
    ensures AddBases(s, lex, owner, refs, visiting, taken)
      == AddBases(s, lex, owner, refs[1..], visiting, WithBase(s, lex, refs[0], visiting, taken))
  {
  }

  lemma AddBaseFails(s: Schema, lex: Lexis, owner: string, refs: seq<string>, visiting: set<string>, taken: Taken)
    requires refs != [] && !JoinsBase(s, lex, refs[0], visiting, taken)
    ensures AddBases(s, lex, owner, refs, visiting, taken).Err?
  {
  }

  lemma {:induction false} InheritedExact(s: Schema, lex: Lexis, refs: seq<string>, visiting: set<string>, f: string)
    ensures f in Inherited(s, lex, refs, visiting) <==> exists i :: 0 <= i < |refs| && f in FieldsIn(s, lex, refs[i], visiting)
    decreases |refs|
  {
    if refs != [] {
      InheritedExact(s, lex, refs[1..], visiting, f);
      assert forall i :: 0 < i < |refs| ==> refs[i] == refs[1..][i - 1];
    }
  }

  lemma {:induction false} BasesExact(s: Schema, refs: seq<string>, base: string)
    ensures base in Bases(s, refs) <==> Inherits(refs, s, base)
    decreases |refs|
  {
    if refs != [] {
      BasesExact(s, refs[1..], base);
      assert forall i :: 0 < i < |refs| ==> refs[i] == refs[1..][i - 1];
      if Inherits(refs[1..], s, base) {
        var i :| 0 <= i < |refs[1..]| && Resolve(s, refs[1..][i]) == Ok(base);
        assert refs[i + 1] == refs[1..][i];
      }
    }
  }

  // ---------------------------------------------------------------- one definition

  ghost predicate StepFine(s: Schema, lex: Lexis, name: string, inner: set<string>) {
    GoFieldName(lex, name) && name in s && s[name].kind == "object"
    && JoinBases(s, lex, s[name].allOf, inner, Taken({}, {}))
    && Joins(lex, s[name].properties, Taken(Inherited(s, lex, s[name].allOf, inner), Bases(s, s[name].allOf)))
  }

  lemma FieldsStep(s: Schema, lex: Lexis, name: string, visiting: set<string>)
    ensures Fields(s, lex, name, visiting).Ok? <==> name !in visiting && StepFine(s, lex, name, visiting + {name})
    ensures Fields(s, lex, name, visiting).Ok? ==>
      Fields(s, lex, name, visiting).value
      == Inherited(s, lex, s[name].allOf, visiting + {name}) + PropertyNames(s[name].properties)
  {
    if name in s {
      var inner, refs := visiting + {name}, s[name].allOf;
      AddBasesExact(s, lex, name, refs, inner, Taken({}, {}));
      AddPropertiesExact(lex, name, s[name].properties, Taken(Inherited(s, lex, refs, inner), Bases(s, refs)));
      assert {} + Inherited(s, lex, refs, inner) == Inherited(s, lex, refs, inner) && {} + Bases(s, refs) == Bases(s, refs);
    }
  }

  // ---------------------------------------------------------------- all definitions

  lemma ReachesItself(s: Schema, name: string)
    ensures InheritancePath(s, [name]) && Reached(s, name, name)
  {
  }

  lemma PathGrows(s: Schema, name: string, base: string, q: seq<string>)
    requires name in s && Inherits(s[name].allOf, s, base) && InheritancePath(s, q) && q[0] == base
    ensures InheritancePath(s, [name] + q)
  {
    assert ([name] + q)[1..] == q;
  }

  lemma ReachedThrough(s: Schema, name: string, base: string, d: string)
    requires name in s && Inherits(s[name].allOf, s, base) && Reached(s, base, d)
    ensures Reached(s, name, d)
  {
    var q :| InheritancePath(s, q) && q[0] == base && q[|q| - 1] == d;
    PathGrows(s, name, base, q);
    assert ([name] + q)[|q|] == d;
  }

  lemma ReachedSplits(s: Schema, name: string, d: string) returns (base: string)
    requires Reached(s, name, d) && d != name
    ensures name in s && Inherits(s[name].allOf, s, base) && Reached(s, base, d)
  {
    var p :| InheritancePath(s, p) && p[0] == name && p[|p| - 1] == d;
    base := p[1];
    assert p[1..][|p| - 2] == d;
  }

  // What a definition offers is its own, and what its bases do.
  lemma OffersStep(s: Schema, name: string, f: string)
    requires name in s
    ensures Offers(s, name, f) <==>
      Declares(s, name, f) || exists i :: 0 <= i < |s[name].allOf| && OfferedBy(s, s[name].allOf[i], f)
  {
    ReachesItself(s, name);
    if Offers(s, name, f) && !Declares(s, name, f) {
      var d :| Reached(s, name, d) && Declares(s, d, f);
      var base := ReachedSplits(s, name, d);
      var i :| 0 <= i < |s[name].allOf| && Resolve(s, s[name].allOf[i]) == Ok(base);
      assert OfferedBy(s, s[name].allOf[i], f);
    }
    if i :| 0 <= i < |s[name].allOf| && OfferedBy(s, s[name].allOf[i], f) {
      var base := Resolve(s, s[name].allOf[i]).value;
      var d :| Reached(s, base, d) && Declares(s, d, f);
      ReachedThrough(s, name, base, d);
    }
  }

  // Validation of the name, entered that way, says what it should.
  ghost predicate Judged(s: Schema, lex: Lexis, name: string, visiting: set<string>) {
    (Fields(s, lex, name, visiting).Ok? <==> NoCycle(s, name, visiting) && AllFine(s, lex, name))
    && (Fields(s, lex, name, visiting).Ok? ==> forall f :: f in Fields(s, lex, name, visiting).value <==> Offers(s, name, f))
  }

  ghost predicate BasesJudged(s: Schema, lex: Lexis, refs: seq<string>, inner: set<string>) {
    forall i :: 0 <= i < |refs| && Resolve(s, refs[i]).Ok? ==> Judged(s, lex, Resolve(s, refs[i]).value, inner)
  }

  // The bases that passed are found to offer what they do.
  ghost predicate BasesOffer(s: Schema, lex: Lexis, refs: seq<string>, inner: set<string>) {
    forall i, f :: 0 <= i < |refs| ==> (f in FieldsIn(s, lex, refs[i], inner) <==> OfferedBy(s, refs[i], f))
  }

  lemma PassedBasesOffer(s: Schema, lex: Lexis, refs: seq<string>, inner: set<string>)
    requires BasesJudged(s, lex, refs, inner) && BasesValidated(s, lex, refs, inner)
    ensures BasesOffer(s, lex, refs, inner)
  {
    forall i, f | 0 <= i < |refs|
      ensures f in FieldsIn(s, lex, refs[i], inner) <==> OfferedBy(s, refs[i], f)
    {
      assert Judged(s, lex, Resolve(s, refs[i]).value, inner);
    }
  }

  lemma FieldsAreOffered(s: Schema, lex: Lexis, name: string, visiting: set<string>)
    requires Validated(s, lex, name, visiting) && name in s && BasesOffer(s, lex, s[name].allOf, visiting + {name})
    ensures forall f :: f in Fields(s, lex, name, visiting).value <==> Offers(s, name, f)
  {
    FieldsStep(s, lex, name, visiting);
    forall f
      ensures f in Fields(s, lex, name, visiting).value <==> Offers(s, name, f)
    {
      OffersStep(s, name, f);
      InheritedExact(s, lex, s[name].allOf, visiting + {name}, f);
    }
  }

  // A definition that passed is fine, and so are those below it.
  lemma PassedIsFine(s: Schema, lex: Lexis, name: string, visiting: set<string>)
    requires Validated(s, lex, name, visiting) && name in s && BasesJudged(s, lex, s[name].allOf, visiting + {name})
    ensures NoCycle(s, name, visiting) && AllFine(s, lex, name)
  {
    var inner, refs := visiting + {name}, s[name].allOf;
    FieldsStep(s, lex, name, visiting);
    ValidatedBases(s, lex, name, visiting);
    PassedBasesOffer(s, lex, refs, inner);
    PassedItself(s, lex, name, visiting);
    forall d | Reached(s, name, d)
      ensures DefinitionFine(s, lex, d) && NoClash(s, d)
    {
      if d != name {
        var base := ReachedSplits(s, name, d);
        var i :| 0 <= i < |refs| && Resolve(s, refs[i]) == Ok(base);
        assert Judged(s, lex, base, inner);
      }
    }
    forall p | InheritancePath(s, p) && p[0] == name
      ensures Simple(p, visiting)
    {
      PathAvoidsVisiting(s, lex, p, visiting);
    }
  }

  lemma PassedItself(s: Schema, lex: Lexis, name: string, visiting: set<string>)
    requires Validated(s, lex, name, visiting) && name in s && BasesOffer(s, lex, s[name].allOf, visiting + {name})
    ensures DefinitionFine(s, lex, name) && NoClash(s, name)
  {
    var inner, refs := visiting + {name}, s[name].allOf;
    FieldsStep(s, lex, name, visiting);
    forall i, base | 0 <= i < |s[name].properties| && Inherits(refs, s, base)
      ensures GoName(s[name].properties[i].name) != base
    {
      BasesExact(s, refs, base);
    }
    forall i, f | 0 <= i < |refs| && OfferedBy(s, refs[i], f)
      ensures !Declares(s, name, f) && forall j :: i < j < |refs| ==> !OfferedBy(s, refs[j], f)
    {
      InheritedExact(s, lex, refs, inner, f);
      assert f in FieldsIn(s, lex, refs[i], inner);
      assert forall j :: i < j < |refs| ==> FieldsIn(s, lex, refs[i], inner) !! FieldsIn(s, lex, refs[j], inner);
    }
  }

  // A fine definition passes if those below it do.
  lemma FinePasses(s: Schema, lex: Lexis, name: string, visiting: set<string>)
    requires NoCycle(s, name, visiting) && AllFine(s, lex, name)
    requires name in s && BasesJudged(s, lex, s[name].allOf, visiting + {name})
    ensures Validated(s, lex, name, visiting)
  {
    var inner, refs := visiting + {name}, s[name].allOf;
    ReachesItself(s, name);
    assert Simple([name], visiting) && [name][0] == name;
    forall i | 0 <= i < |refs|
      ensures Validated(s, lex, Resolve(s, refs[i]).value, inner)
    {
      assert BaseFine(s, lex, refs[i]);
      BaseIsFine(s, lex, name, Resolve(s, refs[i]).value, visiting);
      assert Judged(s, lex, Resolve(s, refs[i]).value, inner);
    }
    assert BasesValidated(s, lex, refs, inner) by {
      assert forall i :: 0 <= i < |refs| ==> BaseFine(s, lex, refs[i]);
    }
    PassedBasesOffer(s, lex, refs, inner);
    FineJoins(s, lex, name, inner);
    FieldsStep(s, lex, name, visiting);
  }

  lemma BaseIsFine(s: Schema, lex: Lexis, name: string, base: string, visiting: set<string>)
    requires NoCycle(s, name, visiting) && AllFine(s, lex, name) && name in s && Inherits(s[name].allOf, s, base)
    ensures NoCycle(s, base, visiting + {name}) && AllFine(s, lex, base)
  {
    forall q | InheritancePath(s, q) && q[0] == base
      ensures Simple(q, visiting + {name})
    {
      PathGrows(s, name, base, q);
      var p := [name] + q;
      assert Simple(p, visiting) && p[0] == name;
      assert forall i :: 0 <= i < |q| ==> q[i] == p[i + 1] && p[i + 1] != p[0];
    }
    forall d | Reached(s, base, d)
      ensures Reached(s, name, d)
    {
      ReachedThrough(s, name, base, d);
    }
  }

  lemma FineJoins(s: Schema, lex: Lexis, name: string, inner: set<string>)
    requires name in s && DefinitionFine(s, lex, name) && NoClash(s, name)
    requires BasesValidated(s, lex, s[name].allOf, inner) && BasesOffer(s, lex, s[name].allOf, inner)
    ensures StepFine(s, lex, name, inner)
  {
    var refs, props := s[name].allOf, s[name].properties;
    forall i, j | 0 <= i < j < |refs|
      ensures FieldsIn(s, lex, refs[i], inner) !! FieldsIn(s, lex, refs[j], inner)
    {
      forall f | f in FieldsIn(s, lex, refs[i], inner)
        ensures f !in FieldsIn(s, lex, refs[j], inner)
      {
        assert OfferedBy(s, refs[i], f);
      }
    }
    forall i | 0 <= i < |refs|
      ensures JoinsBase(s, lex, refs[i], inner, Taken({}, {}))
    {
      assert BaseFine(s, lex, refs[i]);
    }
    forall i | 0 <= i < |props|
      ensures GoName(props[i].name) !in Bases(s, refs) && props[i].name !in Inherited(s, lex, refs, inner)
    {
      BasesExact(s, refs, GoName(props[i].name));
      InheritedExact(s, lex, refs, inner, props[i].name);
      assert Declares(s, name, props[i].name);
      assert forall k :: 0 <= k < |refs| ==> !OfferedBy(s, refs[k], props[i].name);
    }
  }

  // Validation accepts a definition exactly when nothing inherits in a circle, every definition
  // it inherits from is fine, and no preference comes in twice; it finds the preferences that
  // those definitions declare.
  lemma {:induction false} ValidationExact(s: Schema, lex: Lexis, name: string, visiting: set<string>)
    ensures Judged(s, lex, name, visiting)
    decreases s.Keys - visiting
  {
    ReachesItself(s, name);
    FieldsStep(s, lex, name, visiting);
    if name in s && name !in visiting {
      var refs := s[name].allOf;
      forall i | 0 <= i < |refs| && Resolve(s, refs[i]).Ok?
        ensures Judged(s, lex, Resolve(s, refs[i]).value, visiting + {name})
      {
        ValidationExact(s, lex, Resolve(s, refs[i]).value, visiting + {name});
      }
      if Validated(s, lex, name, visiting) {
        PassedIsFine(s, lex, name, visiting);
        ValidatedBases(s, lex, name, visiting);
        PassedBasesOffer(s, lex, refs, visiting + {name});
        FieldsAreOffered(s, lex, name, visiting);
      }
      if NoCycle(s, name, visiting) && AllFine(s, lex, name) {
        FinePasses(s, lex, name, visiting);
      }
    } else {
      NeitherPasses(s, lex, name, visiting);
    }
  }

  lemma NeitherPasses(s: Schema, lex: Lexis, name: string, visiting: set<string>)
    requires name !in s || name in visiting
    ensures !(NoCycle(s, name, visiting) && AllFine(s, lex, name))
  {
    ReachesItself(s, name);
    assert [name][0] == name;
    assert name in visiting ==> !Simple([name], visiting);
  }

  // So the generator goes on exactly for schemas in which nothing inherits in a circle, all
  // definitions are fine, and none offers a preference twice.
  lemma SchemaAcceptedExact(s: Schema, lex: Lexis)
    ensures (forall name :: name in s ==> Fields(s, lex, name, {}).Ok?)
      <==> forall name :: name in s ==> NoCycle(s, name, {}) && DefinitionFine(s, lex, name) && NoClash(s, name)
  {
    forall name | name in s
      ensures Fields(s, lex, name, {}).Ok? <==> NoCycle(s, name, {}) && AllFine(s, lex, name)
    {
      ValidationExact(s, lex, name, {});
    }
    forall name | name in s
      ensures Reached(s, name, name) && forall d :: Reached(s, name, d) ==> d in s
    {
      ReachesItself(s, name);
      forall d | Reached(s, name, d)
        ensures d in s
      {
        var p :| InheritancePath(s, p) && p[0] == name && p[|p| - 1] == d;
        PathInSchema(s, p);
      }
    }
  }

  lemma {:induction false} PathInSchema(s: Schema, p: seq<string>)
    requires InheritancePath(s, p) && p[0] in s
    ensures p[|p| - 1] in s
    decreases |p|
  {
    if |p| > 1 {
      var i :| 0 <= i < |s[p[0]].allOf| && Resolve(s, s[p[0]].allOf[i]) == Ok(p[1]);
      PathInSchema(s, p[1..]);
    }
  }
}
