// The preference schema: validating its inheritance, and flattening a definition into the
// preferences it has with the Go selector of each.
module Preferences {
  import opened Basics
  import opened Text

  // What the Go library decides about names.
  datatype Lexis = Lexis(identifier: string -> bool, exported: string -> bool)

  ghost predicate Sane(lex: Lexis) {
    forall s :: lex.identifier(s) ==> '.' !in s
  }

  // A preference, with the complaint its type, its parsing metadata or its tags give rise to.
  datatype Property = Property(name: string, complaint: Option<Error>)

  // A definition: its JSON type, the references it inherits from, and its properties by sorted name.
  datatype Definition = Definition(kind: string, allOf: seq<string>, properties: seq<Property>)

  type Schema = map<string, Definition>

  datatype Error =
    | UnsupportedReference(ref: string)
    | UnknownReference(ref: string)
    | CyclicInheritance(name: string)
    | InvalidDefinitionName(name: string)
    | NotAnObject(name: string)
    | InvalidOrDuplicateGoField(owner: string, field: string)
    | InvalidField(owner: string, field: string)
    | DuplicateInherited(owner: string, fields: set<string>)  // the message names one of them
    | Unsupported(what: string)

  datatype Result<+T> = Ok(value: T) | Err(error: Error)

  const REFERENCE: string := "#/$defs/"

  function Resolve(s: Schema, ref: string): (r: Result<string>)
    ensures r.Ok? ==> r.value in s
  {
    if !(REFERENCE <= ref) then Err(UnsupportedReference(ref))
    else
      var name := ref[|REFERENCE|..];
      if name in s then Ok(name) else Err(UnknownReference(ref))
  }

  // Upper-casing the first byte of a part; a byte of a longer character becomes U+FFFD.
  function Capitalized(part: string): string {
    if part == "" then ""
    else
      var c := part[0];
      [if 'a' <= c <= 'z' then c - 32 as char else if c as int >= 0x80 then '\U{FFFD}' else c] + part[1..]
  }

  function CapitalizedAll(parts: seq<string>): string {
    if parts == [] then "" else Capitalized(parts[0]) + CapitalizedAll(parts[1..])
  }

  function GoName(name: string): string {
    CapitalizedAll(Split(name, '-'))
  }

  // A name without dashes gets a capital; dashed parts each get one and lose their dashes,
  // and empty parts vanish.
  lemma GoNamesNamed(first: char, rest: string, dashed: string)
    requires 'a' <= first <= 'z' && '-' !in rest
    ensures GoName([first] + rest) == [(first as int - 32) as char] + rest
    ensures GoName([first] + rest + "-" + dashed) == [(first as int - 32) as char] + rest + GoName(dashed)
    ensures GoName("-" + dashed) == GoName(dashed) && GoName("") == ""
    ensures 'A' <= (first as int - 32) as char <= 'Z'
  {
    var part := [first] + rest;
    SplitWhole(part, '-');
    SplitHead(part, dashed, '-');
    assert part + ['-'] + dashed == part + "-" + dashed;
    assert Capitalized(part) == [(first as int - 32) as char] + rest;
    CapitalizedHead(part, Split(dashed, '-'));
    CapitalizedHead(part, []);
    SplitHead("", dashed, '-');
    assert "" + ['-'] + dashed == "-" + dashed;
    CapitalizedHead("", Split(dashed, '-'));
    SplitWhole("", '-');
    CapitalizedHead("", []);
  }

  // Any other first character stays, unless it takes several bytes.
  lemma OtherInitials(first: char, rest: string)
    requires !('a' <= first <= 'z') && first != '-' && '-' !in rest
    ensures GoName([first] + rest) == [if first as int <= 127 then first else '\U{FFFD}'] + rest
  {
    SplitWhole([first] + rest, '-');
    CapitalizedHead([first] + rest, []);
  }

  lemma CapitalizedHead(part: string, parts: seq<string>)
    ensures CapitalizedAll([part] + parts) == Capitalized(part) + CapitalizedAll(parts)
    ensures [part] + [] == [part]
  {
    assert ([part] + parts)[1..] == parts;
  }

  // ---------------------------------------------------------------- validation

  // The preference names and the Go field names taken so far in one definition.
  datatype Taken = Taken(fields: set<string>, goFields: set<string>)

  function Fields(s: Schema, lex: Lexis, name: string, visiting: set<string>): Result<set<string>>
    decreases s.Keys - visiting, 0
  {
    if name in visiting then Err(CyclicInheritance(name))
    else if !lex.identifier(name) || !lex.exported(name) then Err(InvalidDefinitionName(name))
    else if name !in s || s[name].kind != "object" then Err(NotAnObject(name))
    else match AddBases(s, lex, name, s[name].allOf, visiting + {name}, Taken({}, {}))
      case Err(e) => Err(e)
      case Ok(inherited) =>
        match AddProperties(lex, name, s[name].properties, inherited)
        case Err(e) => Err(e)
        case Ok(all) => Ok(all.fields)
  }

  function AddBases(s: Schema, lex: Lexis, owner: string, refs: seq<string>, visiting: set<string>, taken: Taken): Result<Taken>
    decreases s.Keys - visiting, |refs| + 1
  {
    if refs == [] then Ok(taken)
    else match Resolve(s, refs[0])
      case Err(e) => Err(e)
      case Ok(base) =>
        if !lex.identifier(base) || !lex.exported(base) || base in taken.goFields then Err(InvalidOrDuplicateGoField(owner, base))
        else match Fields(s, lex, base, visiting)
          case Err(e) => Err(e)
          case Ok(inherited) =>
            if inherited !! taken.fields then
              AddBases(s, lex, owner, refs[1..], visiting, Taken(taken.fields + inherited, taken.goFields + {base}))
            else Err(DuplicateInherited(owner, inherited * taken.fields))
  }

  function AddProperty(lex: Lexis, owner: string, prop: Property, taken: Taken): Result<Taken> {
    var field := GoName(prop.name);
    if !lex.identifier(prop.name) then Err(InvalidField(owner, prop.name))
    else if !lex.identifier(field) || !lex.exported(field) || field in taken.goFields then Err(InvalidOrDuplicateGoField(owner, prop.name))
    else if prop.name in taken.fields then Err(DuplicateInherited(owner, {prop.name}))
    else if prop.complaint.Some? then Err(prop.complaint.value)
    else Ok(Taken(taken.fields + {prop.name}, taken.goFields + {field}))
  }

  function AddProperties(lex: Lexis, owner: string, props: seq<Property>, taken: Taken): Result<Taken> {
    if props == [] then Ok(taken)
    else match AddProperty(lex, owner, props[0], taken)
      case Err(e) => Err(e)
      case Ok(more) => AddProperties(lex, owner, props[1..], more)
  }

  // The validator: a recursion over the schema that shares the set of definitions being visited.
  class Validator {
    const s: Schema
    const lex: Lexis
    var visiting: set<string>

    constructor (s: Schema, lex: Lexis)
      ensures this.s == s && this.lex == lex && visiting == {}
    {
      this.s := s;
      this.lex := lex;
      visiting := {};
    }

    method FieldsOf(name: string) returns (r: Result<set<string>>)
      modifies this
      ensures r == Fields(s, lex, name, old(visiting)) && visiting == old(visiting)
      decreases s.Keys - visiting
    {
      if name in visiting {
        return Err(CyclicInheritance(name));
      }
      if !lex.identifier(name) || !lex.exported(name) {
        return Err(InvalidDefinitionName(name));
      }
      if name !in s || s[name].kind != "object" {
        return Err(NotAnObject(name));
      }
      ghost var before := visiting;
      visiting := visiting + {name};
      var def := s[name];
      var fields: set<string>, goFields: set<string> := {}, {};
      for i := 0 to |def.allOf|
        invariant visiting == before + {name}
        invariant AddBases(s, lex, name, def.allOf, visiting, Taken({}, {}))
          == AddBases(s, lex, name, def.allOf[i..], visiting, Taken(fields, goFields))
      {
        assert def.allOf[i..][0] == def.allOf[i] && def.allOf[i..][1..] == def.allOf[i + 1..];
        var base := Resolve(s, def.allOf[i]);
        if base.Err? {
          visiting := visiting - {name};
          return Err(base.error);
        }
        if !lex.identifier(base.value) || !lex.exported(base.value) || base.value in goFields {
          visiting := visiting - {name};
          return Err(InvalidOrDuplicateGoField(name, base.value));
        }
        var inherited := FieldsOf(base.value);
        if inherited.Err? {
          visiting := visiting - {name};
          return inherited;
        }
        if !(inherited.value !! fields) {
          visiting := visiting - {name};
          return Err(DuplicateInherited(name, inherited.value * fields));
        }
        fields, goFields := fields + inherited.value, goFields + {base.value};
      }
      visiting := visiting - {name};
      var all := PropertiesOf(name, def.properties, Taken(fields, goFields));
      return match all case Err(e) => Err(e) case Ok(taken) => Ok(taken.fields);
    }

    method PropertiesOf(owner: string, props: seq<Property>, inherited: Taken) returns (r: Result<Taken>)
      ensures r == AddProperties(lex, owner, props, inherited)
    {
      var taken := inherited;
      for i := 0 to |props|
        invariant AddProperties(lex, owner, props, inherited) == AddProperties(lex, owner, props[i..], taken)
      {
        assert props[i..][0] == props[i] && props[i..][1..] == props[i + 1..];
        var more := AddProperty(lex, owner, props[i], taken);
        if more.Err? {
          return more;
        }
        taken := more.value;
      }
      return Ok(taken);
    }
  }

  // ---------------------------------------------------------------- flattening

  datatype Preference = Preference(name: string, selector: string)

  // The definition passed validation from where it was entered.
  ghost predicate Validated(s: Schema, lex: Lexis, name: string, visiting: set<string>) {
    Fields(s, lex, name, visiting).Ok?
  }

  // The bases of a definition that passed, in order.
  ghost predicate BasesValidated(s: Schema, lex: Lexis, refs: seq<string>, visiting: set<string>) {
    forall i :: 0 <= i < |refs| ==> Resolve(s, refs[i]).Ok? && Validated(s, lex, Resolve(s, refs[i]).value, visiting)
  }

  lemma {:induction false} AddBasesValidates(s: Schema, lex: Lexis, owner: string, refs: seq<string>, visiting: set<string>, taken: Taken)
    requires AddBases(s, lex, owner, refs, visiting, taken).Ok?
    ensures BasesValidated(s, lex, refs, visiting)
    decreases |refs|
  {
    if refs != [] {
      var base := Resolve(s, refs[0]).value;
      var inherited := Fields(s, lex, base, visiting).value;
      AddBasesValidates(s, lex, owner, refs[1..], visiting, Taken(taken.fields + inherited, taken.goFields + {base}));
      assert forall i :: 0 < i < |refs| ==> refs[i] == refs[1..][i - 1];
    }
  }

  lemma ValidatedBases(s: Schema, lex: Lexis, name: string, visiting: set<string>)
    requires Validated(s, lex, name, visiting)
    ensures name !in visiting && name in s && lex.identifier(name)
    ensures BasesValidated(s, lex, s[name].allOf, visiting + {name})
  {
    AddBasesValidates(s, lex, name, s[name].allOf, visiting + {name}, Taken({}, {}));
  }

  // The unguarded recursion: it looks at nothing but the schema, and `visiting`, which it
  // does not have at run time, only says why it ends.
  function Flattened(s: Schema, ghost lex: Lexis, name: string, prefix: string, ghost visiting: set<string>): seq<Preference>
    requires Validated(s, lex, name, visiting)
    decreases s.Keys - visiting, 0
  {
    ValidatedBases(s, lex, name, visiting);
    FlattenedBases(s, lex, s[name].allOf, prefix, visiting + {name}) + OwnPreferences(s[name].properties, prefix)
  }

  function FlattenedBases(s: Schema, ghost lex: Lexis, refs: seq<string>, prefix: string, ghost visiting: set<string>): seq<Preference>
    requires BasesValidated(s, lex, refs, visiting)
    decreases s.Keys - visiting, |refs| + 1
  {
    if refs == [] then []
    else
      assert BasesValidated(s, lex, refs[1..], visiting) by {
        assert forall i :: 0 <= i < |refs[1..]| ==> refs[1..][i] == refs[i + 1];
      }
      var base := Resolve(s, refs[0]).value;
      Flattened(s, lex, base, prefix + base + ".", visiting) + FlattenedBases(s, lex, refs[1..], prefix, visiting)
  }

  function OwnPreferences(props: seq<Property>, prefix: string): (r: seq<Preference>)
    ensures |r| == |props|
  {
    if props == [] then [] else [OwnPreference(props[0], prefix)] + OwnPreferences(props[1..], prefix)
  }

  function OwnPreference(prop: Property, prefix: string): Preference {
    Preference(prop.name, prefix + GoName(prop.name))
  }

  lemma {:induction false} OwnPreferenceAt(props: seq<Property>, prefix: string, i: nat)
    requires i < |props|
    ensures OwnPreferences(props, prefix)[i] == OwnPreference(props[i], prefix)
    decreases i
  {
    if i > 0 {
      OwnPreferenceAt(props[1..], prefix, i - 1);
      TailAt(OwnPreference(props[0], prefix), OwnPreferences(props[1..], prefix), i);
    }
  }

  lemma TailAt<T>(head: T, tail: seq<T>, i: nat)
    requires 0 < i <= |tail|
    ensures ([head] + tail)[i] == tail[i - 1]
  {
  }

  lemma {:induction false} OwnPreferencesAre(props: seq<Property>, prefix: string)
    ensures forall i :: 0 <= i < |props| ==> OwnPreferences(props, prefix)[i] == OwnPreference(props[i], prefix)
  {
    forall i | 0 <= i < |props|
      ensures OwnPreferences(props, prefix)[i] == OwnPreference(props[i], prefix)
    {
      OwnPreferenceAt(props, prefix, i);
    }
  }

  // The recursion as the program writes it: the bases' preferences, then its own.
  method FlattenedFields(s: Schema, ghost lex: Lexis, name: string, prefix: string, ghost visiting: set<string>)
    returns (fields: seq<Preference>)
    requires Validated(s, lex, name, visiting)
    ensures fields == Flattened(s, lex, name, prefix, visiting)
    decreases s.Keys - visiting, 0
  {
    ValidatedBases(s, lex, name, visiting);
    var def := s[name];
    fields := InheritedFields(s, lex, def.allOf, prefix, visiting + {name});
    var own := OwnFields(def.properties, prefix);
    fields := fields + own;
  }

  method InheritedFields(s: Schema, ghost lex: Lexis, refs: seq<string>, prefix: string, ghost visiting: set<string>)
    returns (fields: seq<Preference>)
    requires BasesValidated(s, lex, refs, visiting)
    ensures fields == FlattenedBases(s, lex, refs, prefix, visiting)
    decreases s.Keys - visiting, 1
  {
    fields := [];
    assert refs[0..] == refs;
    for i := 0 to |refs|
      invariant BasesValidated(s, lex, refs[i..], visiting)
      invariant fields + FlattenedBases(s, lex, refs[i..], prefix, visiting) == FlattenedBases(s, lex, refs, prefix, visiting)
    {
      FlattenedNext(s, lex, refs, i, prefix, visiting);
      var base := Resolve(s, refs[i]).value;
      var inherited := FlattenedFields(s, lex, base, prefix + base + ".", visiting);
      Regroup(fields, inherited, FlattenedBases(s, lex, refs[i + 1..], prefix, visiting));
      fields := fields + inherited;
    }
  }

  method OwnFields(props: seq<Property>, prefix: string) returns (fields: seq<Preference>)
    ensures fields == OwnPreferences(props, prefix)
  {
    fields := [];
    for i := 0 to |props|
      invariant |fields| == i && forall j :: 0 <= j < i ==> fields[j] == OwnPreference(props[j], prefix)
    {
      fields := fields + [Preference(props[i].name, prefix + GoName(props[i].name))];
    }
    OwnPreferencesAre(props, prefix);
  }

  lemma FlattenedNext(s: Schema, lex: Lexis, refs: seq<string>, i: nat, prefix: string, visiting: set<string>)
    requires i < |refs| && BasesValidated(s, lex, refs[i..], visiting)
    ensures Resolve(s, refs[i]).Ok? && Validated(s, lex, Resolve(s, refs[i]).value, visiting)
    ensures BasesValidated(s, lex, refs[i + 1..], visiting)
    ensures FlattenedBases(s, lex, refs[i..], prefix, visiting)
      == Flattened(s, lex, Resolve(s, refs[i]).value, prefix + Resolve(s, refs[i]).value + ".", visiting)
         + FlattenedBases(s, lex, refs[i + 1..], prefix, visiting)
  {
    var rest := refs[i..];
    assert rest[0] == refs[i] && rest[1..] == refs[i + 1..];
    assert forall j :: 0 <= j < |rest[1..]| ==> rest[1..][j] == rest[j + 1];
  }

  // ---------------------------------------------------------------- what validation buys

  ghost predicate DistinctPreferences(ps: seq<Preference>) {
    forall i, j :: 0 <= i < j < |ps| ==> ps[i].name != ps[j].name && ps[i].selector != ps[j].selector
  }

  ghost predicate NamesAre(ps: seq<Preference>, names: set<string>) {
    (forall p :: p in ps ==> p.name in names) && forall x :: x in names ==> exists p :: p in ps && p.name == x
  }

  ghost predicate AllUnder(ps: seq<Preference>, prefix: string) {
    forall p :: p in ps ==> prefix <= p.selector
  }

  // The selectors go from `prefix` through one of the embedded fields.
  ghost predicate Through(ps: seq<Preference>, prefix: string, bases: set<string>) {
    forall p :: p in ps ==> exists base :: base in bases && prefix + base + "." <= p.selector
  }

  lemma DistinctConcat(a: seq<Preference>, b: seq<Preference>)
    requires DistinctPreferences(a) && DistinctPreferences(b)
    requires forall p, q :: p in a && q in b ==> p.name != q.name && p.selector != q.selector
    ensures DistinctPreferences(a + b)
  {
  }

  lemma NamesConcat(a: seq<Preference>, b: seq<Preference>, names: set<string>, more: set<string>)
    requires NamesAre(a, names) && NamesAre(b, more)
    ensures NamesAre(a + b, names + more)
  {
    forall x | x in names + more
      ensures exists p :: p in a + b && p.name == x
    {
      if x in names {
        var p :| p in a && p.name == x;
        assert p in a + b;
      } else {
        var p :| p in b && p.name == x;
        assert p in a + b;
      }
    }
  }

  // Two selectors through different embedded fields differ, as do one through an embedded
  // field and one that names a field of its own.
  lemma DifferentFields(prefix: string, base: string, selector: string, other: string, rest: string)
    requires '.' !in base && '.' !in other && prefix + base + "." <= selector
    requires rest == "" || rest[0] == '.'
    requires prefix + other + rest <= selector && (rest == "" ==> selector == prefix + other)
    ensures base == other
  {
    var tail := selector[|prefix|..];
    assert tail[..|base|] == base && tail[|base|] == '.';
    assert tail[..|other|] == other;
    assert rest != "" ==> tail[|other|] == '.';
    FirstDot(tail, base, other, rest != "");
  }

  lemma {:induction false} FlattenedIsSound(s: Schema, lex: Lexis, name: string, prefix: string, visiting: set<string>)
    requires Sane(lex) && Validated(s, lex, name, visiting)
    ensures var ps := Flattened(s, lex, name, prefix, visiting);
      DistinctPreferences(ps) && NamesAre(ps, Fields(s, lex, name, visiting).value) && AllUnder(ps, prefix)
    decreases s.Keys - visiting, 0
  {
    ValidatedBases(s, lex, name, visiting);
    var def, inside := s[name], visiting + {name};
    var bases := FieldsParts(s, lex, name, visiting);
    FlattenedBasesSound(s, lex, name, def.allOf, prefix, inside, Taken({}, {}));
    var inherited := FlattenedBases(s, lex, def.allOf, prefix, inside);
    OwnSound(lex, name, def.properties, prefix, bases);
    OwnIsFresh(lex, name, def.properties, bases);
    var all := AddProperties(lex, name, def.properties, bases).value;
    NothingTaken(bases.fields);
    NothingTaken(bases.goFields);
    OwnJoinsInherited(lex, inherited, def.properties, prefix, bases);
    NamesConcat(inherited, OwnPreferences(def.properties, prefix), bases.fields, all.fields - bases.fields);
    Rejoined(bases.fields, all.fields);
  }

  lemma NothingTaken(names: set<string>)
    ensures names - {} == names
  {
  }

  lemma Rejoined(names: set<string>, all: set<string>)
    requires names <= all
    ensures names + (all - names) == all
  {
  }

  lemma FieldsParts(s: Schema, lex: Lexis, name: string, visiting: set<string>) returns (bases: Taken)
    requires Validated(s, lex, name, visiting)
    ensures name in s && AddBases(s, lex, name, s[name].allOf, visiting + {name}, Taken({}, {})) == Ok(bases)
    ensures AddProperties(lex, name, s[name].properties, bases).Ok?
    ensures Fields(s, lex, name, visiting).value == AddProperties(lex, name, s[name].properties, bases).value.fields
  {
    bases := AddBases(s, lex, name, s[name].allOf, visiting + {name}, Taken({}, {})).value;
  }

  lemma OwnJoinsInherited(lex: Lexis, inherited: seq<Preference>, props: seq<Property>, prefix: string, bases: Taken)
    requires Sane(lex) && DistinctPreferences(inherited) && NamesAre(inherited, bases.fields)
    requires Through(inherited, prefix, bases.goFields) && (forall base :: base in bases.goFields ==> '.' !in base)
    requires DistinctPreferences(OwnPreferences(props, prefix)) && FreshNames(props, bases)
    ensures DistinctPreferences(inherited + OwnPreferences(props, prefix))
  {
    forall p, q | p in inherited && q in OwnPreferences(props, prefix)
      ensures p.name != q.name && p.selector != q.selector
    {
      OwnIsNotInherited(lex, props, prefix, bases, p, q);
    }
    DistinctConcat(inherited, OwnPreferences(props, prefix));
  }

  // The properties take names, and Go field names, that nothing inherited has.
  ghost predicate FreshNames(props: seq<Property>, taken: Taken) {
    forall i :: 0 <= i < |props| ==> FreshProperty(props[i], taken)
  }

  ghost predicate FreshProperty(prop: Property, taken: Taken) {
    prop.name !in taken.fields && GoName(prop.name) !in taken.goFields && '.' !in GoName(prop.name)
  }

  lemma OwnIsFresh(lex: Lexis, owner: string, props: seq<Property>, taken: Taken)
    requires Sane(lex) && AddProperties(lex, owner, props, taken).Ok?
    ensures FreshNames(props, taken)
  {
    forall i | 0 <= i < |props|
      ensures FreshProperty(props[i], taken)
    {
      FreshAt(lex, owner, props, taken, i);
    }
  }

  lemma {:induction false} FreshAt(lex: Lexis, owner: string, props: seq<Property>, taken: Taken, i: nat)
    requires Sane(lex) && AddProperties(lex, owner, props, taken).Ok? && i < |props|
    ensures FreshProperty(props[i], taken)
    decreases i
  {
    var more := FirstAdded(lex, owner, props, taken);
    if i > 0 {
      FreshAt(lex, owner, props[1..], more, i - 1);
      FreshBefore(props[i], taken, more);
    }
  }

  lemma FreshBefore(prop: Property, taken: Taken, more: Taken)
    requires FreshProperty(prop, more) && taken.fields <= more.fields && taken.goFields <= more.goFields
    ensures FreshProperty(prop, taken)
  {
  }

  lemma OwnIsNotInherited(lex: Lexis, props: seq<Property>, prefix: string, bases: Taken, p: Preference, q: Preference)
    requires Sane(lex) && p.name in bases.fields && (forall base :: base in bases.goFields ==> '.' !in base)
    requires exists base :: base in bases.goFields && prefix + base + "." <= p.selector
    requires q in OwnPreferences(props, prefix)
    requires FreshNames(props, bases)
    ensures p.name != q.name && p.selector != q.selector
  {
    OwnPreferencesAre(props, prefix);
    var i :| 0 <= i < |props| && q == OwnPreference(props[i], prefix);
    assert FreshProperty(props[i], bases);
    var base :| base in bases.goFields && prefix + base + "." <= p.selector;
    if p.selector == q.selector {
      assert prefix + GoName(props[i].name) + "" == q.selector;
      DifferentFields(prefix, base, p.selector, GoName(props[i].name), "");
    }
  }

  lemma {:induction false} FlattenedBasesSound(s: Schema, lex: Lexis, owner: string, refs: seq<string>, prefix: string,
                                               visiting: set<string>, taken: Taken)
    requires Sane(lex) && AddBases(s, lex, owner, refs, visiting, taken).Ok?
    requires forall base :: base in taken.goFields ==> '.' !in base
    ensures BasesValidated(s, lex, refs, visiting)
    ensures var ps, all := FlattenedBases(s, lex, refs, prefix, visiting), AddBases(s, lex, owner, refs, visiting, taken).value;
      taken.fields <= all.fields && taken.goFields <= all.goFields
      && (forall base :: base in all.goFields ==> '.' !in base)
      && DistinctPreferences(ps) && NamesAre(ps, all.fields - taken.fields)
      && Through(ps, prefix, all.goFields - taken.goFields) && AllUnder(ps, prefix)
    decreases s.Keys - visiting, |refs| + 1
  {
    AddBasesValidates(s, lex, owner, refs, visiting, taken);
    if refs != [] {
      var base := Resolve(s, refs[0]).value;
      var fields := Fields(s, lex, base, visiting).value;
      var more := Taken(taken.fields + fields, taken.goFields + {base});
      FlattenedIsSound(s, lex, base, prefix + base + ".", visiting);
      FlattenedBasesSound(s, lex, owner, refs[1..], prefix, visiting, more);
      var first, rest := Flattened(s, lex, base, prefix + base + ".", visiting), FlattenedBases(s, lex, refs[1..], prefix, visiting);
      var all := AddBases(s, lex, owner, refs, visiting, taken).value;
      BaseJoins(first, rest, prefix, base, fields, all.fields - more.fields, all.goFields - more.goFields);
      Remaining(taken.fields, fields, all.fields);
      Remaining(taken.goFields, {base}, all.goFields);
    }
  }

  lemma Remaining(taken: set<string>, next: set<string>, all: set<string>)
    requires taken + next <= all && taken !! next
    ensures next + (all - (taken + next)) == all - taken
  {
  }

  // The preferences of one base next to those of the bases after it.
  lemma BaseJoins(first: seq<Preference>, rest: seq<Preference>, prefix: string, base: string,
                  fields: set<string>, names: set<string>, others: set<string>)
    requires DistinctPreferences(first) && NamesAre(first, fields) && AllUnder(first, prefix + base + ".")
    requires DistinctPreferences(rest) && NamesAre(rest, names) && Through(rest, prefix, others) && AllUnder(rest, prefix)
    requires fields !! names && base !in others && '.' !in base && forall other :: other in others ==> '.' !in other
    ensures DistinctPreferences(first + rest) && NamesAre(first + rest, fields + names)
    ensures Through(first + rest, prefix, {base} + others) && AllUnder(first + rest, prefix)
  {
    forall p, q | p in first && q in rest
      ensures p.name != q.name && p.selector != q.selector
    {
      var other :| other in others && prefix + other + "." <= q.selector;
      if p.selector == q.selector {
        DifferentFields(prefix, base, p.selector, other, ".");
      }
    }
    DistinctConcat(first, rest);
    NamesConcat(first, rest, fields, names);
    ThroughConcat(first, rest, prefix, base, others);
  }

  lemma ThroughConcat(first: seq<Preference>, rest: seq<Preference>, prefix: string, base: string, others: set<string>)
    requires AllUnder(first, prefix + base + ".") && Through(rest, prefix, others) && AllUnder(rest, prefix)
    ensures Through(first + rest, prefix, {base} + others) && AllUnder(first + rest, prefix)
  {
    forall p | p in first + rest
      ensures (exists b :: b in {base} + others && prefix + b + "." <= p.selector) && prefix <= p.selector
    {
      if p in first {
        assert prefix + base + "." <= p.selector && base in {base} + others;
        assert prefix == (prefix + base + ".")[..|prefix|];
      } else {
        var b :| b in others && prefix + b + "." <= p.selector;
        assert b in {base} + others;
      }
    }
  }

  lemma {:induction false} OwnSound(lex: Lexis, owner: string, props: seq<Property>, prefix: string, taken: Taken)
    requires Sane(lex) && AddProperties(lex, owner, props, taken).Ok?
    ensures var ps, all := OwnPreferences(props, prefix), AddProperties(lex, owner, props, taken).value;
      taken.fields <= all.fields && DistinctPreferences(ps) && NamesAre(ps, all.fields - taken.fields) && AllUnder(ps, prefix)
    decreases |props|
  {
    if props != [] {
      var prop, rest := props[0], props[1..];
      var more := FirstAdded(lex, owner, props, taken);
      OwnSound(lex, owner, rest, prefix, more);
      OwnIsFresh(lex, owner, rest, more);
      var all := AddProperties(lex, owner, props, taken).value;
      OwnStep(prop, rest, prefix, more, all.fields - more.fields);
      assert props == [prop] + rest;
      assert {prop.name} + (all.fields - more.fields) == all.fields - taken.fields;
    }
  }

  lemma FirstAdded(lex: Lexis, owner: string, props: seq<Property>, taken: Taken) returns (more: Taken)
    requires Sane(lex) && props != [] && AddProperties(lex, owner, props, taken).Ok?
    ensures FreshProperty(props[0], taken)
    ensures AddProperties(lex, owner, props[1..], more) == AddProperties(lex, owner, props, taken)
    ensures props[0].name !in taken.fields && more.fields == taken.fields + {props[0].name}
    ensures GoName(props[0].name) !in taken.goFields && more.goFields == taken.goFields + {GoName(props[0].name)}
    ensures lex.identifier(GoName(props[0].name))
  {
    more := AddProperty(lex, owner, props[0], taken).value;
  }

  lemma OwnStep(prop: Property, rest: seq<Property>, prefix: string, more: Taken, names: set<string>)
    requires FreshNames(rest, more) && prop.name in more.fields && GoName(prop.name) in more.goFields
    requires DistinctPreferences(OwnPreferences(rest, prefix)) && AllUnder(OwnPreferences(rest, prefix), prefix)
    requires NamesAre(OwnPreferences(rest, prefix), names)
    ensures NamesAre(OwnPreferences([prop] + rest, prefix), {prop.name} + names)
    ensures DistinctPreferences(OwnPreferences([prop] + rest, prefix)) && AllUnder(OwnPreferences([prop] + rest, prefix), prefix)
  {
    OwnCons(prop, rest, prefix);
    var first, others := [Preference(prop.name, prefix + GoName(prop.name))], OwnPreferences(rest, prefix);
    forall q | q in others
      ensures prop.name != q.name && first[0].selector != q.selector
    {
      OwnPreferencesAre(rest, prefix);
      var i :| 0 <= i < |rest| && q == OwnPreference(rest[i], prefix);
      assert FreshProperty(rest[i], more);
      SameFront(prefix, GoName(prop.name), GoName(rest[i].name));
    }
    DistinctConcat(first, others);
    NamesConcat(first, others, {prop.name}, names);
  }

  lemma OwnCons(prop: Property, rest: seq<Property>, prefix: string)
    ensures OwnPreferences([prop] + rest, prefix) == [Preference(prop.name, prefix + GoName(prop.name))] + OwnPreferences(rest, prefix)
    ensures NamesAre([Preference(prop.name, prefix + GoName(prop.name))], {prop.name})
  {
    assert ([prop] + rest)[1..] == rest;
    var first := [Preference(prop.name, prefix + GoName(prop.name))];
    assert first[0] in first;
  }

  // ---------------------------------------------------------------- the whole schema

  // The validation pass of the generator: every definition on its own.
  method ValidateAll(s: Schema, lex: Lexis, names: seq<string>) returns (r: Result<()>)
    requires forall name :: name in s <==> name in names
    ensures r.Ok? <==> forall name :: name in s ==> Fields(s, lex, name, {}).Ok?
  {
    var validator := new Validator(s, lex);
    for i := 0 to |names|
      invariant validator.s == s && validator.lex == lex && validator.visiting == {}
      invariant forall j :: 0 <= j < i ==> Validated(s, lex, names[j], {})
    {
      var fields := validator.FieldsOf(names[i]);
      if fields.Err? {
        assert names[i] in s;
        return Err(fields.error);
      }
    }
    return Ok(());
  }

  // In a schema that passed, flattening any definition gives each preference once, under the
  // names validation computed, and no two preferences write one Go field.
  lemma ValidSchemaFlattens(s: Schema, lex: Lexis, name: string)
    requires Sane(lex) && name in s && forall def :: def in s ==> Fields(s, lex, def, {}).Ok?
    ensures Validated(s, lex, name, {})
    ensures var ps := Flattened(s, lex, name, "", {});
      DistinctPreferences(ps) && NamesAre(ps, Fields(s, lex, name, {}).value)
  {
    FlattenedIsSound(s, lex, name, "", {});
  }

  // Each definition inherits from the next.
  ghost predicate InheritancePath(s: Schema, p: seq<string>) {
    p != [] && (|p| > 1 ==> p[0] in s && Inherits(s[p[0]].allOf, s, p[1]) && InheritancePath(s, p[1..]))
  }

  ghost predicate Inherits(refs: seq<string>, s: Schema, base: string) {
    exists i :: 0 <= i < |refs| && Resolve(s, refs[i]) == Ok(base)
  }

  lemma {:induction false} PathAvoidsVisiting(s: Schema, lex: Lexis, p: seq<string>, visiting: set<string>)
    requires p != [] && Validated(s, lex, p[0], visiting) && InheritancePath(s, p)
    ensures forall i :: 0 <= i < |p| ==> p[i] !in visiting
    ensures forall i, j :: 0 <= i < j < |p| ==> p[i] != p[j]
    decreases |p|
  {
    ValidatedBases(s, lex, p[0], visiting);
    if |p| > 1 {
      var i :| 0 <= i < |s[p[0]].allOf| && Resolve(s, s[p[0]].allOf[i]) == Ok(p[1]);
      PathAvoidsVisiting(s, lex, p[1..], visiting + {p[0]});
      assert p == [p[0]] + p[1..];
    }
  }

  // Validation refuses every schema in which a definition inherits from itself.
  lemma CyclesAreRefused(s: Schema, lex: Lexis, p: seq<string>)
    requires |p| > 1 && InheritancePath(s, p) && p[0] == p[|p| - 1]
    ensures p[0] in s && Fields(s, lex, p[0], {}).Err?
  {
    if Fields(s, lex, p[0], {}).Ok? {
      PathAvoidsVisiting(s, lex, p, {});
    }
  }
}
