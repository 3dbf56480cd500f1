/** The native binder: what is known about tables, and the checks of names and members in the
    bodies of one object. A syntax tree is given by its postfix expressions and what the
    queries about their surroundings answer. */
module Binding {
  import opened Options
  import opened Strings

  // ----- Table declarations -----

  datatype Kind = Table | TableExtension | Codeunit | Page | OtherKind

  /** The symbols of one object. */
  datatype Entry = Entry(kind: Kind, name: string, target: Option<string>, fields: seq<string>, methods: seq<string>)

  datatype Facts = Facts(display: Option<string>, declared: bool, fields: set<string>, members: set<string>)

  type Tables = map<string, Facts>

  const NOTHING := Facts(None, false, {}, {})

  function Undouble(s: string): string {
    if |s| >= 2 && s[0] == '"' && s[1] == '"' then ['"'] + Undouble(s[2..])
    else if s == [] then []
    else [s[0]] + Undouble(s[1..])
  }

  /** `unquote_identifier` */
  function Unquoted(text: string): string {
    var t := Trim(text);
    var u := if t != [] && t[0] == '"' then t[1..] else t;
    var v := if u != [] && u[|u| - 1] == '"' then u[..|u| - 1] else u;
    Undouble(v)
  }

  /** The table an entry adds to. */
  function KeyOf(e: Entry): Option<string> {
    match e.kind
    case Table => Some(Lower(Unquoted(e.name)))
    case TableExtension => if e.target.Some? then Some(Lower(Unquoted(e.target.value))) else None
    case _ => None
  }

  function LowerAll(names: seq<string>): (s: set<string>) {
    set n | n in names :: Lower(n)
  }

  function FactsAt(tables: Tables, key: string): Facts {
    if key in tables then tables[key] else NOTHING
  }

  function Merged(f: Facts, e: Entry): Facts {
    Facts(if e.kind == Table then Some(Unquoted(e.name)) else f.display, f.declared || e.kind == Table,
          f.fields + LowerAll(e.fields), f.members + LowerAll(e.methods))
  }

  function WithEntry(tables: Tables, e: Entry): Tables {
    match KeyOf(e)
    case None => tables
    case Some(key) => tables[key := Merged(FactsAt(tables, key), e)]
  }

  function WithEntries(tables: Tables, entries: seq<Entry>): Tables {
    if entries == [] then tables
    else WithEntry(WithEntries(tables, entries[..|entries| - 1]), entries[|entries| - 1])
  }

  /** What was read from packages: names of tables, and their fields and procedures, all in
      lower case and in no particular order. */
  datatype External = External(tables: seq<string>, fields: seq<(string, string)>, methods: seq<(string, string)>)

  function NamesFor(pairs: seq<(string, string)>, key: string): set<string> {
    set p | p in pairs && p.0 == key :: p.1
  }

  function WithExternal(tables: Tables, external: External): Tables {
    map key | key in tables.Keys + (set t | t in external.tables) ::
      var f := FactsAt(tables, key);
      Facts(f.display, f.declared || key in external.tables,
            f.fields + NamesFor(external.fields, key), f.members + NamesFor(external.methods, key))
  }

  lemma {:induction false} ExternalAt(tables: Tables, external: External, key: string)
    ensures var t := WithExternal(tables, external);
            && (key in t <==> key in tables || key in external.tables)
            && (key in t ==>
                  var f := FactsAt(tables, key);
                  t[key] == Facts(f.display, f.declared || key in external.tables,
                                  f.fields + NamesFor(external.fields, key),
                                  f.members + NamesFor(external.methods, key)))
  {
    hide NamesFor;
  }

  lemma {:induction false} NoPairs(key: string)
    ensures NamesFor([], key) == {}
  {
  }

  lemma {:induction false} NothingExternal(tables: Tables)
    ensures WithExternal(tables, External([], [], [])) == tables
  {
    hide WithExternal, NamesFor;
    forall key: string
      ensures key in WithExternal(tables, External([], [], [])) <==> key in tables
      ensures key in tables ==> WithExternal(tables, External([], [], []))[key] == tables[key]
    {
      ExternalAt(tables, External([], [], []), key);
      NoPairs(key);
    }
  }

  lemma {:induction false} OneTable(tables: Tables, names: seq<string>, i: nat)
    requires i < |names|
    ensures var t := WithExternal(tables, External(names[..i], [], []));
            WithExternal(tables, External(names[..i + 1], [], [])) ==
            t[names[i] := FactsAt(t, names[i]).(declared := true)]
  {
    hide WithExternal, NamesFor;
    var t := WithExternal(tables, External(names[..i], [], []));
    var u := WithExternal(tables, External(names[..i + 1], [], []));
    var v := t[names[i] := FactsAt(t, names[i]).(declared := true)];
    assert names[..i + 1] == names[..i] + [names[i]];
    forall key: string ensures (key in u <==> key in v) && (key in u ==> u[key] == v[key]) {
      ExternalAt(tables, External(names[..i], [], []), key);
      ExternalAt(tables, External(names[..i + 1], [], []), key);
      NoPairs(key);
    }
  }

  lemma {:induction false} OnePair(pairs: seq<(string, string)>, i: nat, key: string)
    requires i < |pairs|
    ensures NamesFor(pairs[..i + 1], key) == NamesFor(pairs[..i], key) + if pairs[i].0 == key then {pairs[i].1} else {}
  {
    assert pairs[..i + 1] == pairs[..i] + [pairs[i]];
  }

  lemma {:induction false} OneField(tables: Tables, names: seq<string>, fields: seq<(string, string)>, i: nat)
    requires i < |fields|
    ensures var t := WithExternal(tables, External(names, fields[..i], []));
            WithExternal(tables, External(names, fields[..i + 1], [])) ==
            if fields[i].0 in t
            then t[fields[i].0 := t[fields[i].0].(fields := t[fields[i].0].fields + {fields[i].1})]
            else t
  {
    hide WithExternal, NamesFor;
    var t := WithExternal(tables, External(names, fields[..i], []));
    var u := WithExternal(tables, External(names, fields[..i + 1], []));
    var k := fields[i].0;
    var v := if k in t then t[k := t[k].(fields := t[k].fields + {fields[i].1})] else t;
    forall key: string ensures (key in u <==> key in v) && (key in u ==> u[key] == v[key]) {
      ExternalAt(tables, External(names, fields[..i], []), key);
      ExternalAt(tables, External(names, fields[..i + 1], []), key);
      OnePair(fields, i, key);
    }
    assert u == v;
  }

  lemma {:induction false} OneMethod(tables: Tables, names: seq<string>, fields: seq<(string, string)>,
                                     methods: seq<(string, string)>, i: nat)
    requires i < |methods|
    ensures var t := WithExternal(tables, External(names, fields, methods[..i]));
            WithExternal(tables, External(names, fields, methods[..i + 1])) ==
            if methods[i].0 in t
            then t[methods[i].0 := t[methods[i].0].(members := t[methods[i].0].members + {methods[i].1})]
            else t
  {
    hide WithExternal, NamesFor;
    var t := WithExternal(tables, External(names, fields, methods[..i]));
    var u := WithExternal(tables, External(names, fields, methods[..i + 1]));
    var k := methods[i].0;
    var v := if k in t then t[k := t[k].(members := t[k].members + {methods[i].1})] else t;
    forall key: string ensures (key in u <==> key in v) && (key in u ==> u[key] == v[key]) {
      ExternalAt(tables, External(names, fields, methods[..i]), key);
      ExternalAt(tables, External(names, fields, methods[..i + 1]), key);
      OnePair(methods, i, key);
    }
    assert u == v;
  }

  class BindingSymbols {
    var tables: Tables

    constructor ()
      ensures tables == map[]
    {
      tables := map[];
    }

    /** `add_external`: fields and procedures are added to the tables known by then. */
    method AddExternal(external: External)
      modifies this
      ensures tables == WithExternal(old(tables), external)
    {
      var names, fields, methods := external.tables, external.fields, external.methods;
      NothingExternal(tables);
      for i := 0 to |names|
        invariant tables == WithExternal(old(tables), External(names[..i], [], []))
      {
        OneTable(old(tables), names, i);
        tables := tables[names[i] := FactsAt(tables, names[i]).(declared := true)];
      }
      assert names[..|names|] == names;
      for i := 0 to |fields|
        invariant tables == WithExternal(old(tables), External(names, fields[..i], []))
      {
        OneField(old(tables), names, fields, i);
        if fields[i].0 in tables {
          var facts := tables[fields[i].0];
          tables := tables[fields[i].0 := facts.(fields := facts.fields + {fields[i].1})];
        }
      }
      assert fields[..|fields|] == fields;
      for i := 0 to |methods|
        invariant tables == WithExternal(old(tables), External(names, fields, methods[..i]))
      {
        OneMethod(old(tables), names, fields, methods, i);
        if methods[i].0 in tables {
          var facts := tables[methods[i].0];
          tables := tables[methods[i].0 := facts.(members := facts.members + {methods[i].1})];
        }
      }
      assert methods[..|methods|] == methods;
    }

    /** `add_entry` */
    method AddEntry(entry: Entry)
      modifies this
      ensures tables == WithEntry(old(tables), entry)
    {
      hide LowerAll, Unquoted;
      var key := KeyOf(entry);
      if key.None? {
        return;
      }
      var facts := FactsAt(tables, key.value);
      if entry.kind == Table {
        facts := facts.(declared := true, display := Some(Unquoted(entry.name)));
      }
      var fields := InsertAll(facts.fields, entry.fields);
      var members := InsertAll(facts.members, entry.methods);
      tables := tables[key.value := facts.(fields := fields, members := members)];
    }

    static method InsertAll(before: set<string>, names: seq<string>) returns (after: set<string>)
      ensures after == before + LowerAll(names)
    {
      after := before;
      for i := 0 to |names|
        invariant after == before + LowerAll(names[..i])
      {
        assert LowerAll(names[..i + 1]) == LowerAll(names[..i]) + {Lower(names[i])};
        after := after + {Lower(names[i])};
      }
      assert names[..|names|] == names;
    }
  }

  // ----- The order of entries -----

  /** What the entries say about a table, whatever their order. */
  ghost predicate Says(entries: seq<Entry>, key: string, f: Facts) {
    && (f.declared <==> exists e :: e in entries && KeyOf(e) == Some(key) && e.kind == Table)
    && (forall n :: n in f.fields <==> exists e :: e in entries && KeyOf(e) == Some(key) && n in LowerAll(e.fields))
    && (forall n :: n in f.members <==> exists e :: e in entries && KeyOf(e) == Some(key) && n in LowerAll(e.methods))
  }

  lemma {:induction false} EntriesSay(entries: seq<Entry>, key: string)
    ensures key in WithEntries(map[], entries) <==> exists e :: e in entries && KeyOf(e) == Some(key)
    ensures Says(entries, key, FactsAt(WithEntries(map[], entries), key))
  {
    hide KeyOf, LowerAll;
    if entries != [] {
      var n := |entries| - 1;
      var before := WithEntries(map[], entries[..n]);
      EntriesSay(entries[..n], key);
      assert entries == entries[..n] + [entries[n]];
      assert forall e :: e in entries <==> e in entries[..n] || e == entries[n];
      if KeyOf(entries[n]) == Some(key) {
        OneMoreSays(entries[..n], entries[n], key, FactsAt(before, key));
        assert entries[n] in entries;
      } else {
        OtherSaysNothing(entries[..n], entries[n], key, FactsAt(before, key));
      }
    }
  }

  lemma {:induction false} OneMoreSays(entries: seq<Entry>, e: Entry, key: string, f: Facts)
    requires Says(entries, key, f) && KeyOf(e) == Some(key)
    ensures Says(entries + [e], key, Merged(f, e))
  {
    hide KeyOf, LowerAll;
    assert forall x :: x in entries + [e] <==> x in entries || x == e;
  }

  lemma {:induction false} OtherSaysNothing(entries: seq<Entry>, e: Entry, key: string, f: Facts)
    requires Says(entries, key, f) && KeyOf(e) != Some(key)
    ensures Says(entries + [e], key, f)
  {
    hide KeyOf, LowerAll;
    assert forall x :: x in entries + [e] <==> x in entries || x == e;
  }

  predicate SameButDisplay(f: Facts, g: Facts) {
    f.declared == g.declared && f.fields == g.fields && f.members == g.members
  }

  /** Entries in another order declare the same tables with the same fields and members; only
      the spelling of a name that several entries declare can differ. */
  lemma {:induction false} OrderIrrelevant(xs: seq<Entry>, ys: seq<Entry>, key: string)
    requires multiset(xs) == multiset(ys)
    ensures key in WithEntries(map[], xs) <==> key in WithEntries(map[], ys)
    ensures SameButDisplay(FactsAt(WithEntries(map[], xs), key), FactsAt(WithEntries(map[], ys), key))
  {
    hide KeyOf, LowerAll;
    SameMembers(xs, ys);
    EntriesSay(xs, key);
    EntriesSay(ys, key);
  }

  lemma {:induction false} SameMembers(xs: seq<Entry>, ys: seq<Entry>)
    requires multiset(xs) == multiset(ys)
    ensures forall e :: e in xs <==> e in ys
  {
    assert forall e :: e in xs <==> e in multiset(xs);
    assert forall e :: e in ys <==> e in multiset(ys);
  }

  // ----- The object that is checked -----

  datatype RecordVar = RecordVar(table: string, temporary: bool)

  type Scope = map<string, Option<RecordVar>>

  datatype Declaration = Declaration(names: seq<string>, record: Option<RecordVar>)

  /** A procedure or trigger: its variable sections and parameter list in order, and its named
      return value. */
  datatype Procedure = Procedure(sections: seq<seq<Declaration>>, returnVar: Option<string>,
                                 returnRecord: Option<RecordVar>)

  type Position = nat

  datatype Suffix =
    | NoSuffix
    | Member(name: Option<string>, at: Position)
    | ScopeSuffix
    | CallSuffix
    | OtherSuffix

  /** A postfix expression: the name it starts with, the procedure whose body holds it, whether
      a `with` statement lies between, and what follows the name. */
  datatype Site = Site(name: Option<string>, procedure: Option<nat>, inWith: bool, suffix: Suffix,
                       recordMethodArgument: bool, at: Position)

  datatype Tree = Node(site: Option<Site>, children: seq<Tree>)

  /** An object declaration as the parser gives it. */
  datatype Object = Object(kind: Kind, name: Option<string>, target: Option<string>, sourceTable: Option<string>,
                           hasSourceTable: bool, hasTableNo: bool, globals: Scope, procedureNames: set<string>,
                           sectionNames: set<string>, procedures: map<nat, Procedure>, tree: Tree)

  /** The language tables: names that are always known, Record methods and global functions. */
  datatype Language = Language(known: string -> bool, recordMethods: set<string>, globalFunctions: set<string>)

  const SYSTEM_FIELDS := {
    "systemid", "systemcreatedat", "systemcreatedby", "systemmodifiedat", "systemmodifiedby", "systemrowversion"
  }

  datatype Context = Context(kind: Kind, table: Option<string>, checkNames: bool, checkCalls: bool)

  /** `BindingSymbols::table`: a table whose own declaration is loaded. */
  function TableOf(tables: Tables, key: string): Option<Facts> {
    if key in tables && tables[key].declared then Some(tables[key]) else None
  }

  function ContextFor(tables: Tables, obj: Object, table: Option<string>): Context {
    var known := table.Some? && TableOf(tables, table.value).Some?;
    Context(obj.kind, table, known, known && obj.kind == Table)
  }

  /** `ObjectScope::new`: none if a table has no name or an extension no target. */
  function ContextOf(tables: Tables, obj: Object): Option<Context> {
    match obj.kind
    case Codeunit => Some(Context(Codeunit, None, true, !obj.hasTableNo))
    case Table => if obj.name.None? then None else Some(ContextFor(tables, obj, Some(Lower(obj.name.value))))
    case TableExtension =>
      if obj.target.None? then None else Some(ContextFor(tables, obj, Some(Lower(obj.target.value))))
    case Page =>
      if obj.sourceTable.Some? then Some(ContextFor(tables, obj, Some(Lower(obj.sourceTable.value))))
      else Some(Context(Page, None, !obj.hasSourceTable, false))
    case OtherKind => Some(Context(OtherKind, None, false, false))
  }

  // ----- Scopes -----

  function WithNames(scope: Scope, names: seq<string>, record: Option<RecordVar>): Scope {
    if names == [] then scope
    else WithNames(scope, names[..|names| - 1], record)[Lower(names[|names| - 1]) := record]
  }

  function WithDeclarations(scope: Scope, ds: seq<Declaration>): Scope {
    if ds == [] then scope
    else WithNames(WithDeclarations(scope, ds[..|ds| - 1]), ds[|ds| - 1].names, ds[|ds| - 1].record)
  }

  function WithSections(scope: Scope, sections: seq<seq<Declaration>>): Scope {
    if sections == [] then scope
    else WithDeclarations(WithSections(scope, sections[..|sections| - 1]), sections[|sections| - 1])
  }

  /** The names of a procedure: later declarations hide earlier ones, the return value all. */
  function ScopeFor(p: Procedure): Scope {
    var scope := WithSections(map[], p.sections);
    if p.returnVar.Some? then scope[Lower(p.returnVar.value) := p.returnRecord] else scope
  }

  function ProcedureOf(obj: Object, id: nat): Procedure {
    if id in obj.procedures then obj.procedures[id] else Procedure([], None, None)
  }

  // ----- The checks -----

  datatype Code = AL0118 | AL0132

  datatype Diagnostic = Diagnostic(at: Position, code: Code, message: string)

  function Redoubled(s: string): string {
    if s == [] then [] else (if s[0] == '"' then "\"\"" else [s[0]]) + Redoubled(s[1..])
  }

  predicate IsLetter(c: char) { 'a' <= c <= 'z' || 'A' <= c <= 'Z' }

  function QuoteIfNeeded(name: string): string {
    if name != [] && (IsLetter(name[0]) || name[0] == '_')
       && forall i :: 0 <= i < |name| ==> IsLetter(name[i]) || '0' <= name[i] <= '9' || name[i] == '_'
    then name
    else "\"" + Redoubled(name) + "\""
  }

  /** The table of the implicit `Rec`. */
  function ImplicitRecord(tables: Tables, ctx: Context): Option<RecordVar> {
    if ctx.table.None? || TableOf(tables, ctx.table.value).None? then None
    else if ctx.kind == Table || ctx.kind == TableExtension || ctx.kind == Page then
      var facts := TableOf(tables, ctx.table.value).value;
      Some(RecordVar(if facts.display.Some? then facts.display.value else ctx.table.value, false))
    else None
  }

  predicate IsMember(lang: Language, facts: Facts, name: string) {
    var key := Lower(name);
    key in facts.fields || key in facts.members || key in SYSTEM_FIELDS || key in lang.recordMethods
  }

  /** `check_member` */
  function CheckMember(lang: Language, tables: Tables, record: Option<RecordVar>, suffix: Suffix): Option<Diagnostic> {
    if record.None? || !suffix.Member? || suffix.name.None? then None else
    var facts := TableOf(tables, Lower(record.value.table));
    if facts.None? || IsMember(lang, facts.value, suffix.name.value) then None else
    var display := if facts.value.display.Some? then facts.value.display.value else record.value.table;
    Some(Diagnostic(suffix.at, AL0132,
                    "'Record " + QuoteIfNeeded(display) + (if record.value.temporary then " temporary" else "")
                    + "' does not contain a definition for '" + suffix.name.value + "'"))
  }

  /** `check_bare_name` */
  function CheckBareName(lang: Language, tables: Tables, obj: Object, ctx: Context, site: Site, name: string):
    Option<Diagnostic>
  {
    var key := Lower(name);
    var isCall := site.suffix.CallSuffix?;
    if !ctx.checkNames || site.suffix.ScopeSuffix? || (isCall && !ctx.checkCalls) then None
    else if key in obj.procedureNames || key in obj.sectionNames || lang.known(name) then None
    else if ctx.table.Some? && TableOf(tables, ctx.table.value).Some?
            && IsMember(lang, TableOf(tables, ctx.table.value).value, name) then None
    else if isCall && (key in lang.globalFunctions || key == "run") then None
    else if site.recordMethodArgument then None
    else Some(Diagnostic(site.at, AL0118, "The name '" + name + "' does not exist in the current context."))
  }

  /** `check_expression` */
  function Check(lang: Language, tables: Tables, obj: Object, ctx: Context, site: Site): Option<Diagnostic> {
    if site.name.None? || site.procedure.None? || site.inWith then None else
    var name := site.name.value;
    var key := Lower(name);
    var scope := ScopeFor(ProcedureOf(obj, site.procedure.value));
    if key in scope then CheckMember(lang, tables, scope[key], site.suffix)
    else if key in obj.globals then CheckMember(lang, tables, obj.globals[key], site.suffix)
    else if key == "rec" || key == "xrec" then CheckMember(lang, tables, ImplicitRecord(tables, ctx), site.suffix)
    else CheckBareName(lang, tables, obj, ctx, site, name)
  }

  // ----- What is reported -----

  predicate NamesKey(d: Declaration, key: string) {
    exists k :: 0 <= k < |d.names| && Lower(d.names[k]) == key
  }

  predicate SectionNames(ds: seq<Declaration>, key: string) {
    exists j :: 0 <= j < |ds| && NamesKey(ds[j], key)
  }

  /** A variable section, the parameter list or the return value of the procedure has the name. */
  predicate Declares(p: Procedure, key: string) {
    || (exists i :: 0 <= i < |p.sections| && SectionNames(p.sections[i], key))
    || (p.returnVar.Some? && Lower(p.returnVar.value) == key)
  }

  lemma {:induction false} NamesInScope(scope: Scope, names: seq<string>, record: Option<RecordVar>, key: string)
    ensures key in WithNames(scope, names, record) <==>
            key in scope || exists k :: 0 <= k < |names| && Lower(names[k]) == key
  {
    hide Lower;
    if names != [] {
      var n := |names| - 1;
      NamesInScope(scope, names[..n], record, key);
      assert forall k :: 0 <= k < n ==> names[..n][k] == names[k];
    }
  }

  lemma {:induction false} DeclarationsInScope(scope: Scope, ds: seq<Declaration>, key: string)
    ensures key in WithDeclarations(scope, ds) <==> key in scope || SectionNames(ds, key)
  {
    hide Lower;
    if ds != [] {
      var n := |ds| - 1;
      DeclarationsInScope(scope, ds[..n], key);
      NamesInScope(WithDeclarations(scope, ds[..n]), ds[n].names, ds[n].record, key);
      assert forall j :: 0 <= j < n ==> ds[..n][j] == ds[j];
    }
  }

  lemma {:induction false} SectionsInScope(sections: seq<seq<Declaration>>, key: string)
    ensures key in WithSections(map[], sections) <==> exists i :: 0 <= i < |sections| && SectionNames(sections[i], key)
  {
    hide SectionNames;
    if sections != [] {
      var n := |sections| - 1;
      SectionsInScope(sections[..n], key);
      DeclarationsInScope(WithSections(map[], sections[..n]), sections[n], key);
      assert forall i :: 0 <= i < n ==> sections[..n][i] == sections[i];
    }
  }

  /** The scope of a procedure has exactly the names that are declared in it. */
  lemma {:induction false} ScopeHasDeclared(p: Procedure, key: string)
    ensures key in ScopeFor(p) <==> Declares(p, key)
  {
    hide SectionNames, Lower;
    SectionsInScope(p.sections, key);
  }

  /** Nothing that the checked object, its table or the language declares has the name. */
  predicate Unresolved(lang: Language, tables: Tables, obj: Object, ctx: Context, site: Site, name: string) {
    var key := Lower(name);
    && key !in obj.globals && key != "rec" && key != "xrec"
    && key !in obj.procedureNames && key !in obj.sectionNames && !lang.known(name)
    && (ctx.table.Some? && TableOf(tables, ctx.table.value).Some? ==>
          !IsMember(lang, TableOf(tables, ctx.table.value).value, name))
    && (site.suffix.CallSuffix? ==> key !in lang.globalFunctions && key != "run")
  }

  /** With the scope known: a name is reported as unknown exactly if nothing in reach declares it,
      at a place where names of its kind are checked. */
  lemma {:induction false} NameReported(lang: Language, tables: Tables, obj: Object, ctx: Context, site: Site)
    ensures var d := Check(lang, tables, obj, ctx, site);
            d.Some? && d.value.code == AL0118 <==>
            && site.name.Some? && site.procedure.Some? && !site.inWith
            && !Declares(ProcedureOf(obj, site.procedure.value), Lower(site.name.value))
            && Unresolved(lang, tables, obj, ctx, site, site.name.value)
            && ctx.checkNames && (site.suffix.CallSuffix? ==> ctx.checkCalls)
            && !site.suffix.ScopeSuffix? && !site.recordMethodArgument
  {
    hide Lower, Declares, ScopeFor, TableOf, IsMember, QuoteIfNeeded, ImplicitRecord;
    if site.name.Some? && site.procedure.Some? {
      ScopeHasDeclared(ProcedureOf(obj, site.procedure.value), Lower(site.name.value));
    }
  }

  // ----- Walking the tree -----

  /** The postfix expressions of trees, from the last tree to the first and each before its
      children, as the walk with an explicit stack meets them. */
  function Met(trees: seq<Tree>): seq<Site>
    decreases trees
  {
    if trees == [] then [] else
    var n := |trees| - 1;
    MetIn(trees[n]) + Met(trees[..n])
  }

  function MetIn(tree: Tree): seq<Site>
    decreases tree
  {
    (if tree.site.Some? then [tree.site.value] else []) + Met(tree.children)
  }

  function Size(trees: seq<Tree>): nat
    decreases trees
  {
    if trees == [] then 0 else 1 + Size(trees[|trees| - 1].children) + Size(trees[..|trees| - 1])
  }

  lemma {:induction false} MetFromLast(trees: seq<Tree>)
    requires trees != []
    ensures Met(trees) == MetIn(trees[|trees| - 1]) + Met(trees[..|trees| - 1])
  {
  }

  lemma {:induction false} MetAppends(xs: seq<Tree>, ys: seq<Tree>)
    ensures Met(xs + ys) == Met(ys) + Met(xs)
  {
    if ys == [] {
      assert xs + ys == xs;
    } else {
      hide Met, MetIn;
      var n := |ys| - 1;
      assert (xs + ys)[..|xs| + n] == xs + ys[..n];
      MetFromLast(xs + ys);
      MetFromLast(ys);
      MetAppends(xs, ys[..n]);
      assert MetIn(ys[n]) + (Met(ys[..n]) + Met(xs)) == (MetIn(ys[n]) + Met(ys[..n])) + Met(xs);
    }
  }

  lemma {:induction false} SizeAppends(xs: seq<Tree>, ys: seq<Tree>)
    ensures Size(xs + ys) == Size(xs) + Size(ys)
  {
    if ys == [] {
      assert xs + ys == xs;
    } else {
      var n := |ys| - 1;
      assert (xs + ys)[..|xs| + n] == xs + ys[..n] && (xs + ys)[|xs| + n] == ys[n];
      SizeAppends(xs, ys[..n]);
    }
  }

  lemma {:induction false} LastOpened(stack: seq<Tree>)
    requires stack != []
    ensures var node, rest := stack[|stack| - 1], stack[..|stack| - 1];
            && Met(stack) == (if node.site.Some? then [node.site.value] else []) + Met(node.children) + Met(rest)
            && Size(stack) == 1 + Size(node.children) + Size(rest)
  {
  }

  lemma {:induction false} MetLast(stack: seq<Tree>)
    requires stack != []
    ensures var node, rest := stack[|stack| - 1], stack[..|stack| - 1];
            && Met(stack) == (if node.site.Some? then [node.site.value] else []) + Met(rest + node.children)
            && Size(rest + node.children) < Size(stack)
  {
    hide Met, Size;
    var node, rest := stack[|stack| - 1], stack[..|stack| - 1];
    LastOpened(stack);
    MetAppends(rest, node.children);
    SizeAppends(rest, node.children);
    var x := if node.site.Some? then [node.site.value] else [];
    assert x + (Met(node.children) + Met(rest)) == x + Met(node.children) + Met(rest);
  }

  /** The diagnostics of expressions, in order. */
  function Diagnose(lang: Language, tables: Tables, obj: Object, ctx: Context, sites: seq<Site>): seq<Diagnostic> {
    if sites == [] then [] else
    var n := |sites| - 1;
    var d := Check(lang, tables, obj, ctx, sites[n]);
    Diagnose(lang, tables, obj, ctx, sites[..n]) + if d.Some? then [d.value] else []
  }

  /** All that is reported about an object. */
  function Report(lang: Language, tables: Tables, obj: Object): seq<Diagnostic> {
    var ctx := ContextOf(tables, obj);
    if ctx.None? then [] else Diagnose(lang, tables, obj, ctx.value, MetIn(obj.tree))
  }

  class Checker {
    const lang: Language
    const tables: Tables
    const obj: Object
    const ctx: Context
    var procedureScopes: map<nat, Scope>
    var out: seq<Diagnostic>

    constructor (lang: Language, tables: Tables, obj: Object, ctx: Context)
      ensures this.lang == lang && this.tables == tables && this.obj == obj && this.ctx == ctx
      ensures Valid() && out == []
    {
      this.lang, this.tables, this.obj, this.ctx := lang, tables, obj, ctx;
      procedureScopes, out := map[], [];
    }

    /** Every remembered scope is the one its procedure has. */
    predicate Valid()
      reads this
    {
      forall id :: id in procedureScopes ==> procedureScopes[id] == ScopeFor(ProcedureOf(obj, id))
    }

    /** `scope_of`: computed once per procedure. */
    method ScopeOf(id: nat) returns (scope: Scope)
      requires Valid()
      modifies this`procedureScopes
      ensures Valid() && scope == ScopeFor(ProcedureOf(obj, id))
    {
      if id in procedureScopes {
        return procedureScopes[id];
      }
      var procedure := ProcedureOf(obj, id);
      scope := map[];
      for i := 0 to |procedure.sections|
        invariant scope == WithSections(map[], procedure.sections[..i])
        invariant procedureScopes == old(procedureScopes)
      {
        assert procedure.sections[..i + 1][..i] == procedure.sections[..i];
        scope := CollectDeclarations(procedure.sections[i], scope);
      }
      assert procedure.sections[..|procedure.sections|] == procedure.sections;
      if procedure.returnVar.Some? {
        scope := scope[Lower(procedure.returnVar.value) := procedure.returnRecord];
      }
      procedureScopes := procedureScopes[id := scope];
    }

    /** `collect_declarations` */
    static method CollectDeclarations(section: seq<Declaration>, before: Scope) returns (scope: Scope)
      ensures scope == WithDeclarations(before, section)
    {
      scope := before;
      for i := 0 to |section|
        invariant scope == WithDeclarations(before, section[..i])
      {
        assert section[..i + 1][..i] == section[..i];
        var names := section[i].names;
        ghost var outer := scope;
        for j := 0 to |names|
          invariant scope == WithNames(outer, names[..j], section[i].record)
        {
          assert names[..j + 1][..j] == names[..j];
          scope := scope[Lower(names[j]) := section[i].record];
        }
        assert names[..|names|] == names;
      }
      assert section[..|section|] == section;
    }

    /** `check_expression` */
    method CheckExpression(site: Site)
      requires Valid()
      modifies this
      ensures Valid()
      ensures out == old(out) + var d := Check(lang, tables, obj, ctx, site); if d.Some? then [d.value] else []
    {
      hide CheckMember, CheckBareName, ScopeFor;
      if site.name.None? || site.procedure.None? || site.inWith {
        return;
      }
      var key := Lower(site.name.value);
      var scope := ScopeOf(site.procedure.value);
      var found: Option<Diagnostic>;
      if key in scope {
        found := CheckMember(lang, tables, scope[key], site.suffix);
      } else if key in obj.globals {
        found := CheckMember(lang, tables, obj.globals[key], site.suffix);
      } else if key == "rec" || key == "xrec" {
        found := CheckMember(lang, tables, ImplicitRecord(tables, ctx), site.suffix);
      } else {
        found := CheckBareName(lang, tables, obj, ctx, site, site.name.value);
      }
      if found.Some? {
        out := out + [found.value];
      }
    }

    /** `run`: the walk with an explicit stack checks every expression of the object once. */
    method Run()
      requires Valid() && out == []
      modifies this
      ensures Valid() && out == Diagnose(lang, tables, obj, ctx, MetIn(obj.tree))
    {
      hide Check, Valid, Met, Size;
      var stack := [obj.tree];
      ghost var met: seq<Site> := [];
      MetAlone(obj.tree);
      while stack != []
        invariant Valid()
        invariant met + Met(stack) == MetIn(obj.tree)
        invariant out == Diagnose(lang, tables, obj, ctx, met)
        decreases Size(stack)
      {
        MetLast(stack);
        var node := stack[|stack| - 1];
        stack := stack[..|stack| - 1];
        if node.site.Some? {
          CheckExpression(node.site.value);
          assert (met + [node.site.value])[..|met|] == met;
          met := met + [node.site.value];
        }
        stack := stack + node.children;
      }
      assert met == MetIn(obj.tree);
    }
  }

  lemma {:induction false} MetAlone(tree: Tree)
    ensures Met([tree]) == MetIn(tree) && Met([]) == []
  {
    assert [tree][..0] == [];
  }

  // ----- Adding entries -----

  /** Names of tables as displayed are the names they are found under. */
  predicate WellFormed(tables: Tables) {
    forall key :: key in tables && tables[key].display.Some? ==> Lower(tables[key].display.value) == key
  }

  lemma {:induction false} EntryKeepsForm(tables: Tables, e: Entry)
    requires WellFormed(tables)
    ensures WellFormed(WithEntry(tables, e))
  {
    hide Lower, Unquoted;
  }

  /** After an entry that is no table, the same tables are known by the same names, with at
      least the same members. */
  ghost predicate OnlyMore(before: Tables, after: Tables) {
    forall key: string ::
      && (TableOf(before, key).Some? <==> TableOf(after, key).Some?)
      && (TableOf(before, key).Some? ==>
            var f, g := TableOf(before, key).value, TableOf(after, key).value;
            f.display == g.display && f.fields <= g.fields && f.members <= g.members)
  }

  lemma {:induction false} ExtensionOnlyAdds(tables: Tables, e: Entry)
    requires e.kind != Table
    ensures OnlyMore(tables, WithEntry(tables, e))
  {
    hide KeyOf, LowerAll;
  }

  lemma {:induction false} SameContext(before: Tables, after: Tables, obj: Object)
    requires OnlyMore(before, after)
    ensures ContextOf(before, obj) == ContextOf(after, obj)
    ensures forall ctx :: ImplicitRecord(before, ctx) == ImplicitRecord(after, ctx)
  {
    hide TableOf, Lower;
  }

  lemma {:induction false} MemberOnlyFewer(lang: Language, before: Tables, after: Tables, record: Option<RecordVar>,
                                           suffix: Suffix)
    requires OnlyMore(before, after)
    ensures var d := CheckMember(lang, after, record, suffix);
            d.Some? ==> d == CheckMember(lang, before, record, suffix)
  {
    hide TableOf, Lower, QuoteIfNeeded;
  }

  lemma {:induction false} NameOnlyFewer(lang: Language, before: Tables, after: Tables, obj: Object, ctx: Context,
                                         site: Site, name: string)
    requires OnlyMore(before, after)
    ensures var d := CheckBareName(lang, after, obj, ctx, site, name);
            d.Some? ==> d == CheckBareName(lang, before, obj, ctx, site, name)
  {
    hide TableOf, Lower;
  }

  lemma {:induction false} CheckOnlyFewer(lang: Language, before: Tables, after: Tables, obj: Object, ctx: Context,
                                          site: Site)
    requires OnlyMore(before, after)
    ensures var d := Check(lang, after, obj, ctx, site); d.Some? ==> d == Check(lang, before, obj, ctx, site)
  {
    hide OnlyMore, CheckMember, CheckBareName, ImplicitRecord, ScopeFor, Lower;
    SameContext(before, after, obj);
    if site.name.Some? && site.procedure.Some? {
      var scope := ScopeFor(ProcedureOf(obj, site.procedure.value));
      var key := Lower(site.name.value);
      var record := if key in scope then scope[key]
                    else if key in obj.globals then obj.globals[key]
                    else ImplicitRecord(before, ctx);
      MemberOnlyFewer(lang, before, after, record, site.suffix);
      NameOnlyFewer(lang, before, after, obj, ctx, site, site.name.value);
    }
  }

  lemma {:induction false} DiagnoseOnlyFewer(lang: Language, before: Tables, after: Tables, obj: Object, ctx: Context,
                                             sites: seq<Site>)
    requires OnlyMore(before, after)
    ensures multiset(Diagnose(lang, after, obj, ctx, sites)) <= multiset(Diagnose(lang, before, obj, ctx, sites))
  {
    hide OnlyMore, Check;
    if sites != [] {
      var n := |sites| - 1;
      DiagnoseOnlyFewer(lang, before, after, obj, ctx, sites[..n]);
      CheckOnlyFewer(lang, before, after, obj, ctx, sites[n]);
    }
  }

  /** Adding a table extension, or any entry that is no table, never adds a diagnostic to any
      object: each that is still reported was reported before, word for word. */
  lemma {:induction false} ExtensionNeverAdds(lang: Language, tables: Tables, e: Entry, obj: Object)
    requires e.kind != Table
    ensures multiset(Report(lang, WithEntry(tables, e), obj)) <= multiset(Report(lang, tables, obj))
  {
    hide OnlyMore, Diagnose, ContextOf, WithEntry;
    ExtensionOnlyAdds(tables, e);
    SameContext(tables, WithEntry(tables, e), obj);
    var ctx := ContextOf(tables, obj);
    if ctx.Some? {
      DiagnoseOnlyFewer(lang, tables, WithEntry(tables, e), obj, ctx.value, MetIn(obj.tree));
    }
  }

  // ----- Adding tables -----

  /** What is reported where, without the wording. */
  function Places(ds: seq<Diagnostic>): (places: seq<(Position, Code)>)
    ensures |places| == |ds|
  {
    if ds == [] then [] else Places(ds[..|ds| - 1]) + [(ds[|ds| - 1].at, ds[|ds| - 1].code)]
  }

  /** For no object anything is reported that was not reported before. */
  ghost predicate NeverAdds(lang: Language, before: Tables, after: Tables) {
    forall obj: Object :: multiset(Places(Report(lang, after, obj))) <= multiset(Places(Report(lang, before, obj)))
  }

  /** The same tables are known, with at least the same members. */
  ghost predicate SameTables(before: Tables, after: Tables) {
    && WellFormed(before) && WellFormed(after)
    && forall key: string ::
         && (TableOf(before, key).Some? <==> TableOf(after, key).Some?)
         && (TableOf(before, key).Some? ==>
               && TableOf(before, key).value.fields <= TableOf(after, key).value.fields
               && TableOf(before, key).value.members <= TableOf(after, key).value.members)
  }

  predicate SamePlace(d: Option<Diagnostic>, e: Option<Diagnostic>) {
    d.Some? ==> e.Some? && d.value.at == e.value.at && d.value.code == e.value.code
  }

  lemma {:induction false} LowerTwice(s: string)
    ensures Lower(Lower(s)) == Lower(s)
  {
  }

  lemma {:induction false} ContextIsLower(tables: Tables, obj: Object)
    ensures var ctx := ContextOf(tables, obj);
            ctx.Some? && ctx.value.table.Some? ==> Lower(ctx.value.table.value) == ctx.value.table.value
  {
    hide Lower, TableOf;
    if obj.name.Some? { LowerTwice(obj.name.value); }
    if obj.target.Some? { LowerTwice(obj.target.value); }
    if obj.sourceTable.Some? { LowerTwice(obj.sourceTable.value); }
  }

  /** Both records name the same table. */
  predicate SameRecord(r: Option<RecordVar>, s: Option<RecordVar>) {
    (r.Some? <==> s.Some?) && (r.Some? ==> Lower(r.value.table) == Lower(s.value.table))
  }

  lemma {:induction false} ImplicitRecordStays(before: Tables, after: Tables, ctx: Context)
    requires SameTables(before, after)
    requires ctx.table.Some? ==> Lower(ctx.table.value) == ctx.table.value
    ensures SameRecord(ImplicitRecord(after, ctx), ImplicitRecord(before, ctx))
  {
    hide Lower;
  }

  lemma {:induction false} MemberPlaces(lang: Language, before: Tables, after: Tables, r: Option<RecordVar>,
                                        s: Option<RecordVar>, suffix: Suffix)
    requires SameTables(before, after) && SameRecord(s, r)
    ensures SamePlace(CheckMember(lang, after, s, suffix), CheckMember(lang, before, r, suffix))
  {
    hide TableOf, Lower, QuoteIfNeeded, WellFormed;
  }

  lemma {:induction false} NamePlaces(lang: Language, before: Tables, after: Tables, obj: Object, ctx: Context,
                                      site: Site, name: string)
    requires SameTables(before, after)
    ensures SamePlace(CheckBareName(lang, after, obj, ctx, site, name),
                      CheckBareName(lang, before, obj, ctx, site, name))
  {
    hide TableOf, Lower, WellFormed;
  }

  lemma {:induction false} CheckPlaces(lang: Language, before: Tables, after: Tables, obj: Object, ctx: Context,
                                       site: Site)
    requires SameTables(before, after)
    requires ctx.table.Some? ==> Lower(ctx.table.value) == ctx.table.value
    ensures SamePlace(Check(lang, after, obj, ctx, site), Check(lang, before, obj, ctx, site))
  {
    hide SameTables, CheckMember, CheckBareName, ImplicitRecord, ScopeFor, Lower;
    ImplicitRecordStays(before, after, ctx);
    if site.name.Some? && site.procedure.Some? {
      var scope := ScopeFor(ProcedureOf(obj, site.procedure.value));
      var key := Lower(site.name.value);
      var declared := if key in scope then scope[key] else if key in obj.globals then obj.globals[key] else None;
      MemberPlaces(lang, before, after, declared, declared, site.suffix);
      MemberPlaces(lang, before, after, ImplicitRecord(before, ctx), ImplicitRecord(after, ctx), site.suffix);
      NamePlaces(lang, before, after, obj, ctx, site, site.name.value);
    }
  }

  lemma {:induction false} DiagnosePlaces(lang: Language, before: Tables, after: Tables, obj: Object, ctx: Context,
                                          sites: seq<Site>)
    requires SameTables(before, after)
    requires ctx.table.Some? ==> Lower(ctx.table.value) == ctx.table.value
    ensures multiset(Places(Diagnose(lang, after, obj, ctx, sites))) <=
            multiset(Places(Diagnose(lang, before, obj, ctx, sites)))
  {
    hide SameTables, Check, Lower;
    if sites != [] {
      var n := |sites| - 1;
      DiagnosePlaces(lang, before, after, obj, ctx, sites[..n]);
      CheckPlaces(lang, before, after, obj, ctx, sites[n]);
      PlacesOfMore(Diagnose(lang, before, obj, ctx, sites[..n]), Check(lang, before, obj, ctx, sites[n]));
      PlacesOfMore(Diagnose(lang, after, obj, ctx, sites[..n]), Check(lang, after, obj, ctx, sites[n]));
    }
  }

  lemma {:induction false} PlacesOfMore(ds: seq<Diagnostic>, d: Option<Diagnostic>)
    ensures Places(ds + if d.Some? then [d.value] else []) ==
            Places(ds) + if d.Some? then [(d.value.at, d.value.code)] else []
  {
    if d.Some? {
      assert (ds + [d.value])[..|ds|] == ds;
    } else {
      assert ds + [] == ds;
    }
  }

  lemma {:induction false} SameTablesContext(before: Tables, after: Tables, obj: Object)
    requires SameTables(before, after)
    ensures ContextOf(before, obj) == ContextOf(after, obj)
  {
    hide TableOf, Lower, WellFormed;
  }

  lemma {:induction false} SameTablesNeverAdds(lang: Language, before: Tables, after: Tables)
    requires SameTables(before, after)
    ensures NeverAdds(lang, before, after)
  {
    hide SameTables, Diagnose, ContextOf, Lower;
    forall obj: Object
      ensures multiset(Places(Report(lang, after, obj))) <= multiset(Places(Report(lang, before, obj)))
    {
      SameTablesContext(before, after, obj);
      ContextIsLower(before, obj);
      var ctx := ContextOf(before, obj);
      if ctx.Some? {
        DiagnosePlaces(lang, before, after, obj, ctx.value, MetIn(obj.tree));
      }
    }
  }

  lemma {:induction false} KnownTableStays(tables: Tables, e: Entry)
    requires WellFormed(tables)
    requires e.kind != Table || TableOf(tables, KeyOf(e).value).Some?
    ensures SameTables(tables, WithEntry(tables, e))
  {
    hide Lower, Unquoted, LowerAll;
    EntryKeepsForm(tables, e);
  }

  /** A codeunit that reads the member `name` of a Record variable. */
  function Probe(table: string, name: string): Object {
    var site := Site(Some("r"), Some(0), false, Member(Some(name), 0), false, 0);
    Object(Codeunit, None, None, None, false, false, map["r" := Some(RecordVar(table, false))], {}, {}, map[],
           Node(Some(site), []))
  }

  lemma {:induction false} ProbeReports(lang: Language, tables: Tables, table: string, name: string)
    ensures var d := CheckMember(lang, tables, Some(RecordVar(table, false)), Member(Some(name), 0));
            Report(lang, tables, Probe(table, name)) == if d.Some? then [d.value] else []
  {
    hide CheckMember;
    var obj := Probe(table, name);
    var site := obj.tree.site.value;
    var ctx := ContextOf(tables, obj).value;
    assert Lower("r") == "r";
    assert MetIn(obj.tree) == [site];
    assert ScopeFor(ProcedureOf(obj, 0)) == map[];
    assert [site][..0] == [];
    assert Diagnose(lang, tables, obj, ctx, []) == [];
    assert Check(lang, tables, obj, ctx, site) ==
           CheckMember(lang, tables, Some(RecordVar(table, false)), Member(Some(name), 0));
  }

  /** There is always a name that is not among finitely many. */
  lemma {:induction false} LongerThanAll(names: set<string>) returns (n: nat)
    ensures forall x :: x in names ==> |x| < n
    decreases |names|
  {
    if names == {} {
      n := 0;
    } else {
      var x :| x in names;
      var m := LongerThanAll(names - {x});
      n := if |x| < m then m else |x| + 1;
      assert forall y :: y in names ==> y == x || y in names - {x};
    }
  }

  lemma {:induction false} NoSuchMember(lang: Language, facts: Facts) returns (name: string)
    ensures !IsMember(lang, facts, name)
  {
    var n := LongerThanAll(facts.fields + facts.members + SYSTEM_FIELDS + lang.recordMethods);
    name := seq(n, _ => 'x');
    assert |Lower(name)| == n;
  }

  lemma {:induction false} NewTableReports(lang: Language, tables: Tables, e: Entry)
    requires e.kind == Table && TableOf(tables, KeyOf(e).value).None?
    ensures !NeverAdds(lang, tables, WithEntry(tables, e))
  {
    hide Unquoted, LowerAll, Report, Lower, QuoteIfNeeded, IsMember;
    var after := WithEntry(tables, e);
    var name := NoSuchMember(lang, after[KeyOf(e).value]);
    var table := Unquoted(e.name);
    var obj := Probe(table, name);
    ProbeReports(lang, tables, table, name);
    ProbeReports(lang, after, table, name);
    OneMorePlace(Report(lang, tables, obj), Report(lang, after, obj));
  }

  lemma {:induction false} OneMorePlace(fewer: seq<Diagnostic>, more: seq<Diagnostic>)
    requires |more| > |fewer|
    ensures !(multiset(Places(more)) <= multiset(Places(fewer)))
  {
    var m, f := multiset(Places(more)), multiset(Places(fewer));
    assert |m| == |more| && |f| == |fewer|;
    assert m <= f ==> |f - m| == |f| - |m|;
  }

  /** Exactly the entries that declare a table not known before can add a report. */
  lemma {:induction false} WhenEntriesAdd(lang: Language, tables: Tables, e: Entry)
    requires WellFormed(tables)
    ensures NeverAdds(lang, tables, WithEntry(tables, e)) <==>
            e.kind != Table || TableOf(tables, KeyOf(e).value).Some?
  {
    hide NeverAdds, WithEntry, WellFormed, TableOf, SameTables;
    if e.kind != Table || TableOf(tables, KeyOf(e).value).Some? {
      KnownTableStays(tables, e);
      SameTablesNeverAdds(lang, tables, WithEntry(tables, e));
    } else {
      NewTableReports(lang, tables, e);
    }
  }
}
