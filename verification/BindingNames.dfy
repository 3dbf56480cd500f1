/** When a name or a member is reported, in terms of the entries that were loaded. */
module BindingNames {
  import opened Options
  import opened Strings
  import opened Spelling
  import opened Binding

  // ----- What the entries hold -----

  /** The entry declares the table, in whatever letter case. */
  predicate DeclaresTable(e: Entry, table: string) {
    e.kind == Table && SameButCase(Unquoted(e.name), table)
  }

  /** The entry declares or extends it. */
  predicate AddsTo(e: Entry, table: string) {
    DeclaresTable(e, table) ||
    (e.kind == TableExtension && e.target.Some? && SameButCase(Unquoted(e.target.value), table))
  }

  ghost predicate IsDeclared(entries: seq<Entry>, table: string) {
    exists e :: e in entries && DeclaresTable(e, table)
  }

  predicate Lists(names: seq<string>, name: string) {
    exists i :: 0 <= i < |names| && SameButCase(names[i], name)
  }

  /** Some entry for the table has a field or a procedure of the name. */
  ghost predicate HasMember(entries: seq<Entry>, table: string, name: string) {
    exists e :: e in entries && AddsTo(e, table) && (Lists(e.fields, name) || Lists(e.methods, name))
  }

  /** The fields that every table has. */
  predicate IsSystemField(name: string) {
    || SameButCase(name, "SystemId")
    || SameButCase(name, "SystemCreatedAt") || SameButCase(name, "SystemCreatedBy")
    || SameButCase(name, "SystemModifiedAt") || SameButCase(name, "SystemModifiedBy")
    || SameButCase(name, "SystemRowVersion")
  }

  predicate IsRecordMethod(lang: Language, name: string) {
    Lower(name) in lang.recordMethods
  }

  lemma {:induction false} KeyIs(e: Entry, table: string)
    ensures KeyOf(e) == Some(Lower(table)) <==> AddsTo(e, table)
    ensures KeyOf(e) == Some(Lower(table)) && e.kind == Table <==> DeclaresTable(e, table)
  {
    hide Unquoted, SameButCase, Lower;
    LowerDecides(Unquoted(e.name), table);
    if e.target.Some? {
      LowerDecides(Unquoted(e.target.value), table);
    }
  }

  lemma {:induction false} ListsIs(names: seq<string>, name: string)
    ensures Lower(name) in LowerAll(names) <==> Lists(names, name)
  {
    hide SameButCase, Lower;
    forall n ensures Lower(n) == Lower(name) <==> SameButCase(n, name) {
      LowerDecides(n, name);
    }
    if Lower(name) in LowerAll(names) {
      var n :| n in names && Lower(n) == Lower(name);
      var i :| 0 <= i < |names| && names[i] == n;
      assert SameButCase(names[i], name);
    }
    if Lists(names, name) {
      var i :| 0 <= i < |names| && SameButCase(names[i], name);
      assert Lower(names[i]) == Lower(name);
      assert names[i] in names;
    }
  }

  lemma {:induction false} SystemFieldIs(name: string)
    ensures Lower(name) in SYSTEM_FIELDS <==> IsSystemField(name)
  {
    hide SameButCase;
    LowerDecides(name, "SystemId");
    LowerDecides(name, "SystemCreatedAt");
    LowerDecides(name, "SystemCreatedBy");
    LowerDecides(name, "SystemModifiedAt");
    LowerDecides(name, "SystemModifiedBy");
    LowerDecides(name, "SystemRowVersion");
    LoweredSystemFields();
  }

  lemma {:induction false} LoweredSystemFields()
    ensures Lower("SystemId") == "systemid" && Lower("SystemRowVersion") == "systemrowversion"
    ensures Lower("SystemCreatedAt") == "systemcreatedat" && Lower("SystemCreatedBy") == "systemcreatedby"
    ensures Lower("SystemModifiedAt") == "systemmodifiedat" && Lower("SystemModifiedBy") == "systemmodifiedby"
  {
    hide Lower;
    LoweredIds();
    LoweredCreated();
    LoweredModified();
  }

  lemma {:induction false} LoweredIds()
    ensures Lower("SystemId") == "systemid" && Lower("SystemRowVersion") == "systemrowversion"
  {
  }

  lemma {:induction false} LoweredCreated()
    ensures Lower("SystemCreatedAt") == "systemcreatedat" && Lower("SystemCreatedBy") == "systemcreatedby"
  {
  }

  lemma {:induction false} LoweredModified()
    ensures Lower("SystemModifiedAt") == "systemmodifiedat" && Lower("SystemModifiedBy") == "systemmodifiedby"
  {
  }

  /** The loaded tables in these terms. */
  lemma {:induction false} TableIs(entries: seq<Entry>, table: string)
    ensures TableOf(WithEntries(map[], entries), Lower(table)).Some? <==> IsDeclared(entries, table)
  {
    hide KeyOf, DeclaresTable, WithEntries, Lower;
    var key := Lower(table);
    EntriesSay(entries, key);
    forall e: Entry ensures KeyOf(e) == Some(key) && e.kind == Table <==> DeclaresTable(e, table) {
      KeyIs(e, table);
    }
  }

  lemma {:induction false} MemberIs(lang: Language, entries: seq<Entry>, table: string, name: string)
    requires IsDeclared(entries, table)
    ensures var facts := TableOf(WithEntries(map[], entries), Lower(table));
            facts.Some? &&
            (IsMember(lang, facts.value, name) <==>
              HasMember(entries, table, name) || IsSystemField(name) || IsRecordMethod(lang, name))
  {
    hide KeyOf, DeclaresTable, WithEntries, Lower, SameButCase, LowerAll, AddsTo, Lists, IsSystemField;
    var key := Lower(table);
    TableIs(entries, table);
    EntriesSay(entries, key);
    SystemFieldIs(name);
    forall e: Entry
      ensures KeyOf(e) == Some(key) <==> AddsTo(e, table)
      ensures Lower(name) in LowerAll(e.fields) <==> Lists(e.fields, name)
      ensures Lower(name) in LowerAll(e.methods) <==> Lists(e.methods, name)
    {
      KeyIs(e, table);
      ListsIs(e.fields, name);
      ListsIs(e.methods, name);
    }
    var facts := FactsAt(WithEntries(map[], entries), key);
    MembersSaid(entries, key, facts, Lower(name));
  }

  lemma {:induction false} MembersSaid(entries: seq<Entry>, key: string, f: Facts, n: string)
    requires Says(entries, key, f)
    ensures n in f.fields || n in f.members <==>
            exists e :: e in entries && KeyOf(e) == Some(key) && (n in LowerAll(e.fields) || n in LowerAll(e.methods))
  {
    hide KeyOf, LowerAll;
  }

  // ----- Members of Record variables -----

  /** The name is a variable of that Record type: the innermost declaration decides. */
  predicate IsRecordVariable(obj: Object, site: Site, record: RecordVar) {
    && site.name.Some? && site.procedure.Some?
    && var key, scope := Lower(site.name.value), ScopeFor(ProcedureOf(obj, site.procedure.value));
       if key in scope then scope[key] == Some(record)
       else key in obj.globals && obj.globals[key] == Some(record)
  }

  /** A member that is accessed on a Record variable is reported if and only if the table is
      declared and neither it nor an extension nor the language has the member. */
  lemma {:induction false} MemberReported(lang: Language, entries: seq<Entry>, obj: Object, ctx: Context, site: Site,
                                          record: RecordVar)
    requires IsRecordVariable(obj, site, record) && !site.inWith
    requires site.suffix.Member? && site.suffix.name.Some?
    ensures var d, member := Check(lang, WithEntries(map[], entries), obj, ctx, site), site.suffix.name.value;
            && (d.Some? <==>
                  && IsDeclared(entries, record.table) && !HasMember(entries, record.table, member)
                  && !IsSystemField(member) && !IsRecordMethod(lang, member))
            && (d.Some? ==> d.value.code == AL0132 && d.value.at == site.suffix.at)
  {
    hide Lower, ScopeFor, WithEntries, TableOf, IsMember, IsDeclared, HasMember, IsSystemField, QuoteIfNeeded;
    var tables := WithEntries(map[], entries);
    TableIs(entries, record.table);
    if IsDeclared(entries, record.table) {
      MemberIs(lang, entries, record.table, site.suffix.name.value);
    }
    assert Check(lang, tables, obj, ctx, site) == CheckMember(lang, tables, Some(record), site.suffix);
  }

  /** Nothing else is said about the expression, and other uses of the variable are not looked at. */
  lemma {:induction false} VariableUnreported(lang: Language, tables: Tables, obj: Object, ctx: Context, site: Site,
                                              record: RecordVar)
    requires IsRecordVariable(obj, site, record)
    requires site.inWith || !site.suffix.Member? || site.suffix.name.None?
    ensures Check(lang, tables, obj, ctx, site) == None
  {
    hide Lower, ScopeFor, TableOf, IsMember, QuoteIfNeeded;
  }

  // ----- Names -----

  /** The table whose fields can be named alone is declared and has the name. */
  ghost predicate OwnMember(lang: Language, entries: seq<Entry>, ctx: Context, name: string) {
    exists table :: ctx.table == Some(Lower(table)) && IsDeclared(entries, table)
                    && (HasMember(entries, table, name) || IsSystemField(name) || IsRecordMethod(lang, name))
  }

  lemma {:induction false} OwnMemberIs(lang: Language, entries: seq<Entry>, ctx: Context, name: string)
    requires ctx.table.Some? ==> Lower(ctx.table.value) == ctx.table.value
    ensures var tables := WithEntries(map[], entries);
            ctx.table.Some? && TableOf(tables, ctx.table.value).Some?
            && IsMember(lang, TableOf(tables, ctx.table.value).value, name)
            <==> OwnMember(lang, entries, ctx, name)
  {
    hide Lower, WithEntries, TableOf, IsMember, IsDeclared, HasMember, IsSystemField;
    forall table: string | ctx.table == Some(Lower(table))
      ensures TableOf(WithEntries(map[], entries), Lower(table)).Some? <==> IsDeclared(entries, table)
      ensures IsDeclared(entries, table) ==>
                (IsMember(lang, TableOf(WithEntries(map[], entries), Lower(table)).value, name) <==>
                  HasMember(entries, table, name) || IsSystemField(name) || IsRecordMethod(lang, name))
    {
      TableIs(entries, table);
      if IsDeclared(entries, table) {
        MemberIs(lang, entries, table, name);
      }
    }
    if ctx.table.Some? {
      assert ctx.table == Some(Lower(ctx.table.value));
    }
  }

  lemma {:induction false} ContextIsLower(tables: Tables, obj: Object)
    ensures var ctx := ContextOf(tables, obj);
            ctx.Some? && ctx.value.table.Some? ==> Lower(ctx.value.table.value) == ctx.value.table.value
  {
    hide Lower, TableOf;
    forall s: string ensures Lower(Lower(s)) == Lower(s) {
      LowerStays(s);
    }
  }

  /** A name is reported as unknown if and only if it stands where names are looked up and is no
      variable, procedure, section name or word of the language, nor a member of the table that
      the object is about. */
  lemma {:induction false} NameUnknown(lang: Language, entries: seq<Entry>, obj: Object, site: Site)
    requires ContextOf(WithEntries(map[], entries), obj).Some?
    ensures var ctx := ContextOf(WithEntries(map[], entries), obj).value;
            var d := Check(lang, WithEntries(map[], entries), obj, ctx, site);
            d.Some? && d.value.code == AL0118 <==>
            && site.name.Some? && site.procedure.Some? && !site.inWith && !site.suffix.ScopeSuffix?
            && ctx.checkNames && !site.recordMethodArgument
            && var name, key := site.name.value, Lower(site.name.value);
               && !Declares(ProcedureOf(obj, site.procedure.value), key) && key !in obj.globals
               && !SameButCase(name, "Rec") && !SameButCase(name, "xRec")
               && key !in obj.procedureNames && key !in obj.sectionNames && !lang.known(name)
               && !OwnMember(lang, entries, ctx, name)
               && (site.suffix.CallSuffix? ==>
                     ctx.checkCalls && key !in lang.globalFunctions && !SameButCase(name, "Run"))
  {
    hide Lower, Declares, WithEntries, TableOf, IsMember, OwnMember, ContextOf, Check, SameButCase;
    var tables := WithEntries(map[], entries);
    var ctx := ContextOf(tables, obj).value;
    NameReported(lang, tables, obj, ctx, site);
    ContextIsLower(tables, obj);
    if site.name.Some? {
      var name := site.name.value;
      OwnMemberIs(lang, entries, ctx, name);
      LowerDecides(name, "Rec");
      LowerDecides(name, "xRec");
      LowerDecides(name, "Run");
      assert Lower("Rec") == "rec" && Lower("xRec") == "xrec" && Lower("Run") == "run" by {
        LoweredWords();
      }
    }
  }

  lemma {:induction false} LoweredWords()
    ensures Lower("Rec") == "rec" && Lower("xRec") == "xrec" && Lower("Run") == "run"
  {
  }

  // ----- Where names are looked up -----

  /** Names are checked in codeunits; in tables, table extensions and pages whose table is
      declared; and in pages without a source table. Calls only in codeunits without `TableNo`
      and in tables. Record methods and fields are those of that table. */
  lemma {:induction false} ContextIs(entries: seq<Entry>, obj: Object)
    ensures var ctx := ContextOf(WithEntries(map[], entries), obj);
            match obj.kind
            case Codeunit => ctx == Some(Context(Codeunit, None, true, !obj.hasTableNo))
            case Table =>
              if obj.name.None? then ctx == None
              else var known := IsDeclared(entries, obj.name.value);
                   ctx == Some(Context(Table, Some(Lower(obj.name.value)), known, known))
            case TableExtension =>
              if obj.target.None? then ctx == None
              else ctx == Some(Context(TableExtension, Some(Lower(obj.target.value)),
                                       IsDeclared(entries, obj.target.value), false))
            case Page =>
              if obj.sourceTable.Some? then
                ctx == Some(Context(Page, Some(Lower(obj.sourceTable.value)),
                                    IsDeclared(entries, obj.sourceTable.value), false))
              else ctx == Some(Context(Page, None, !obj.hasSourceTable, false))
            case OtherKind => ctx == Some(Context(OtherKind, None, false, false))
  {
    hide Lower, WithEntries, TableOf, IsDeclared;
    var table := if obj.kind == Table then obj.name
                 else if obj.kind == TableExtension then obj.target
                 else if obj.kind == Page then obj.sourceTable
                 else None;
    if table.Some? {
      TableIs(entries, table.value);
    }
  }

  /** `Rec` and `xRec` stand for a record of that table, if it is declared. */
  lemma {:induction false} RecIs(lang: Language, entries: seq<Entry>, obj: Object, site: Site, table: string)
    requires var ctx := ContextOf(WithEntries(map[], entries), obj);
             ctx.Some? && ctx.value.table == Some(Lower(table))
    requires site.name.Some? && (SameButCase(site.name.value, "Rec") || SameButCase(site.name.value, "xRec"))
    requires site.procedure.Some? && !site.inWith && site.suffix.Member? && site.suffix.name.Some?
    requires !Declares(ProcedureOf(obj, site.procedure.value), Lower(site.name.value))
    requires Lower(site.name.value) !in obj.globals
    ensures var ctx := ContextOf(WithEntries(map[], entries), obj).value;
            var d, member := Check(lang, WithEntries(map[], entries), obj, ctx, site), site.suffix.name.value;
            && (d.Some? <==>
                  && IsDeclared(entries, table) && !HasMember(entries, table, member)
                  && !IsSystemField(member) && !IsRecordMethod(lang, member))
            && (d.Some? ==> d.value.code == AL0132)
  {
    hide Lower, WithEntries, TableOf, IsMember, IsDeclared, HasMember, IsSystemField, QuoteIfNeeded, ScopeFor, Declares,
         SameButCase, ContextOf;
    var tables := WithEntries(map[], entries);
    var ctx := ContextOf(tables, obj).value;
    var name := site.name.value;
    LowerDecides(name, "Rec");
    LowerDecides(name, "xRec");
    LoweredWords();
    ScopeHasDeclared(ProcedureOf(obj, site.procedure.value), Lower(name));
    TableIs(entries, table);
    ContextKinds(tables, obj);
    if IsDeclared(entries, table) {
      MemberIs(lang, entries, table, site.suffix.name.value);
      FoundUnderName(entries, Lower(table));
      LowerStays(table);
    }
  }

  lemma {:induction false} ContextKinds(tables: Tables, obj: Object)
    ensures var ctx := ContextOf(tables, obj);
            ctx.Some? && ctx.value.table.Some? ==> ctx.value.kind in [Table, TableExtension, Page]
  {
  }

  /** A declared table is found under the name it is displayed by. */
  lemma {:induction false} FoundUnderName(entries: seq<Entry>, key: string)
    ensures WellFormed(WithEntries(map[], entries))
    ensures var facts := TableOf(WithEntries(map[], entries), key);
            facts.Some? && facts.value.display.Some? ==> Lower(facts.value.display.value) == key
  {
    hide Lower, WithEntry;
    if entries != [] {
      var n := |entries| - 1;
      FoundUnderName(entries[..n], key);
      EntryKeepsForm(WithEntries(map[], entries[..n]), entries[n]);
    }
  }

  // ----- Which declaration decides -----

  /** The declaration at these places names the variable, and none behind it does. */
  ghost predicate LastNaming(p: Procedure, key: string, i: nat, j: nat) {
    && i < |p.sections| && j < |p.sections[i]| && NamesKey(p.sections[i][j], key)
    && (forall l :: j < l < |p.sections[i]| ==> !NamesKey(p.sections[i][l], key))
    && (forall k :: i < k < |p.sections| ==> !SectionNames(p.sections[k], key))
  }

  lemma {:induction false} NamesGive(scope: Scope, names: seq<string>, record: Option<RecordVar>, key: string)
    ensures var s := WithNames(scope, names, record);
            if (exists k :: 0 <= k < |names| && Lower(names[k]) == key) then key in s && s[key] == record
            else (key in s <==> key in scope) && (key in s ==> s[key] == scope[key])
  {
    hide Lower;
    if names != [] {
      var n := |names| - 1;
      NamesGive(scope, names[..n], record, key);
      assert forall k :: 0 <= k < n ==> names[..n][k] == names[k];
    }
  }

  lemma {:induction false} DeclarationsGive(scope: Scope, ds: seq<Declaration>, key: string)
    ensures var s := WithDeclarations(scope, ds);
            if SectionNames(ds, key) then
              exists j :: 0 <= j < |ds| && NamesKey(ds[j], key) && key in s && s[key] == ds[j].record
                          && forall l :: j < l < |ds| ==> !NamesKey(ds[l], key)
            else (key in s <==> key in scope) && (key in s ==> s[key] == scope[key])
  {
    hide NamesKey;
    if ds != [] {
      var n := |ds| - 1;
      DeclarationsGive(scope, ds[..n], key);
      NamesGive(WithDeclarations(scope, ds[..n]), ds[n].names, ds[n].record, key);
      NamesKeyIs(ds[n], key);
      assert forall j :: 0 <= j < n ==> ds[..n][j] == ds[j];
      if SectionNames(ds, key) && !NamesKey(ds[n], key) {
        var j :| 0 <= j < |ds[..n]| && NamesKey(ds[..n][j], key)
                 && key in WithDeclarations(scope, ds[..n])
                 && WithDeclarations(scope, ds[..n])[key] == ds[..n][j].record
                 && forall l :: j < l < |ds[..n]| ==> !NamesKey(ds[..n][l], key);
        assert forall l :: j < l < |ds| ==> !NamesKey(ds[l], key);
      }
    }
  }

  lemma {:induction false} NamesKeyIs(d: Declaration, key: string)
    ensures NamesKey(d, key) <==> exists k :: 0 <= k < |d.names| && Lower(d.names[k]) == key
  {
  }

  /** A local name has the type that its return value or else its last declaration gives it. */
  lemma {:induction false} ScopeGives(p: Procedure, key: string)
    requires Declares(p, key)
    ensures key in ScopeFor(p)
    ensures if p.returnVar.Some? && Lower(p.returnVar.value) == key then ScopeFor(p)[key] == p.returnRecord
            else exists i: nat, j: nat :: LastNaming(p, key, i, j) && ScopeFor(p)[key] == p.sections[i][j].record
  {
    hide Lower, SectionNames, NamesKey, WithDeclarations;
    ScopeHasDeclared(p, key);
    if !(p.returnVar.Some? && Lower(p.returnVar.value) == key) {
      assert p.sections[..|p.sections|] == p.sections;
      SectionsGive(p, |p.sections|, key);
    }
  }

  lemma {:induction false} SectionsGive(p: Procedure, n: nat, key: string)
    requires n <= |p.sections| && key in WithSections(map[], p.sections[..n])
    requires forall k :: n <= k < |p.sections| ==> !SectionNames(p.sections[k], key)
    ensures exists i: nat, j: nat ::
              LastNaming(p, key, i, j) && WithSections(map[], p.sections[..n])[key] == p.sections[i][j].record
  {
    hide NamesKey, WithDeclarations;
    if n > 0 {
      var ds, before := p.sections[n - 1], WithSections(map[], p.sections[..n - 1]);
      assert p.sections[..n][..n - 1] == p.sections[..n - 1];
      DeclarationsGive(before, ds, key);
      if SectionNames(ds, key) {
        var j: nat :| j < |ds| && NamesKey(ds[j], key) && WithDeclarations(before, ds)[key] == ds[j].record
                      && forall l :: j < l < |ds| ==> !NamesKey(ds[l], key);
        assert LastNaming(p, key, n - 1, j);
      } else {
        SectionsGive(p, n - 1, key);
      }
    }
  }

  // ----- Names in quotation marks -----

  lemma {:induction false} UndoubledBack(s: string)
    ensures Undouble(Redoubled(s)) == s
  {
    if s != [] {
      UndoubledBack(s[1..]);
      if s[0] == '"' {
        assert Redoubled(s)[2..] == Redoubled(s[1..]);
      } else {
        assert Redoubled(s)[1..] == Redoubled(s[1..]);
      }
    }
  }

  /** Nothing but quotation marks is doubled ... */
  lemma {:induction false} RedoubledPlain(a: string)
    requires '"' !in a
    ensures Redoubled(a) == a
  {
    if a != [] {
      RedoubledPlain(a[1..]);
      assert [a[0]] + a[1..] == a;
    }
  }

  /** ... and each of them is. */
  lemma {:induction false} RedoubledMark(a: string, b: string)
    requires '"' !in a
    ensures Redoubled(a + "\"" + b) == a + "\"\"" + Redoubled(b)
  {
    var s := a + "\"" + b;
    if a == [] {
      assert s[0] == '"' && s[1..] == b;
    } else {
      RedoubledMark(a[1..], b);
      assert s[0] == a[0] && s[1..] == a[1..] + "\"" + b;
      assert [a[0]] + (a[1..] + "\"\"" + Redoubled(b)) == a + "\"\"" + Redoubled(b);
    }
  }

  /** A name in quotation marks, its own ones doubled, stands for the name. */
  lemma {:induction false} UnquotedQuoted(name: string)
    ensures Unquoted("\"" + Redoubled(name) + "\"") == name
  {
    hide Undouble, Redoubled, Trim;
    var text := "\"" + Redoubled(name) + "\"";
    assert text[0] == '"' && text[|text| - 1] == '"';
    QuoteIsBare(text);
    assert [] + text + [] == text;
    TrimBetween([], text, []);
    var u := text[1..];
    assert u == Redoubled(name) + "\"" && u[..|u| - 1] == Redoubled(name);
    UndoubledBack(name);
  }

  lemma {:induction false} QuoteIsBare(s: string)
    requires s != [] && s[0] == '"' && s[|s| - 1] == '"'
    ensures Bare(s)
  {
  }

  /** A name that is cut off loses the one mark it has. */
  lemma {:induction false} UnquotedCutOff(name: string)
    requires Bare(name) && name != [] && '"' !in name
    ensures Unquoted("\"" + name) == name && Unquoted(name + "\"") == name
  {
    hide Undouble, Trim, White;
    var first, last := "\"" + name, name + "\"";
    MarkIsNoSpace();
    assert [] + first + [] == first && [] + last + [] == last;
    assert first[|first| - 1] == name[|name| - 1] && last[0] == name[0];
    TrimBetween([], first, []);
    TrimBetween([], last, []);
    assert first[1..] == name && last[..|last| - 1] == name;
    UndoublePlain(name);
  }

  lemma {:induction false} MarkIsNoSpace()
    ensures !White('"')
  {
  }

  /** A name without them stands for itself, up to white space around it. */
  lemma {:induction false} UnquotedPlain(before: string, name: string, after: string)
    requires AllWhite(before) && AllWhite(after) && Bare(name) && '"' !in name
    ensures Unquoted(before + name + after) == name
  {
    hide Undouble, Trim, White;
    TrimBetween(before, name, after);
    UndoublePlain(name);
  }

  lemma {:induction false} UndoublePlain(s: string)
    requires '"' !in s
    ensures Undouble(s) == s
  {
    if s != [] {
      UndoublePlain(s[1..]);
    }
  }

  // ----- What the messages say -----

  /** A name that needs no quotation marks. */
  predicate IsPlainName(name: string) {
    && name != [] && !('0' <= name[0] <= '9')
    && forall i :: 0 <= i < |name| ==>
         'a' <= name[i] <= 'z' || 'A' <= name[i] <= 'Z' || '0' <= name[i] <= '9' || name[i] == '_'
  }

  lemma {:induction false} QuotedIf(name: string)
    ensures QuoteIfNeeded(name) == if IsPlainName(name) then name else "\"" + Redoubled(name) + "\""
  {
    hide Redoubled;
  }

  /** The spelling of the last entry that declares the table. */
  ghost predicate LastSpelling(entries: seq<Entry>, table: string, name: string) {
    exists i :: 0 <= i < |entries| && DeclaresTable(entries[i], table) && name == Unquoted(entries[i].name)
                && forall j :: i < j < |entries| ==> !DeclaresTable(entries[j], table)
  }

  lemma {:induction false} DisplayIs(entries: seq<Entry>, table: string)
    requires IsDeclared(entries, table)
    ensures var display := FactsAt(WithEntries(map[], entries), Lower(table)).display;
            display.Some? && LastSpelling(entries, table, display.value)
  {
    hide DeclaresTable, Unquoted, Lower, KeyOf, LowerAll;
    var n := |entries| - 1;
    KeyIs(entries[n], table);
    if !DeclaresTable(entries[n], table) {
      assert entries == entries[..n] + [entries[n]];
      assert IsDeclared(entries[..n], table);
      DisplayIs(entries[..n], table);
      var display := FactsAt(WithEntries(map[], entries[..n]), Lower(table)).display;
      var i :| 0 <= i < n && DeclaresTable(entries[..n][i], table) && display.value == Unquoted(entries[..n][i].name)
               && forall j :: i < j < n ==> !DeclaresTable(entries[..n][j], table);
      assert forall j :: 0 <= j < n ==> entries[..n][j] == entries[j];
      assert forall j :: i < j < |entries| ==> !DeclaresTable(entries[j], table);
    }
  }

  /** The message names the table as it was declared last, and the member as it was written. */
  lemma {:induction false} MemberMessage(lang: Language, entries: seq<Entry>, obj: Object, ctx: Context, site: Site,
                                         record: RecordVar)
    requires IsRecordVariable(obj, site, record)
    requires Check(lang, WithEntries(map[], entries), obj, ctx, site).Some?
    ensures site.suffix.Member? && site.suffix.name.Some?
    ensures var d := Check(lang, WithEntries(map[], entries), obj, ctx, site).value;
            exists table :: LastSpelling(entries, record.table, table) &&
              d.message == "'Record " + (if IsPlainName(table) then table else "\"" + Redoubled(table) + "\"")
                           + (if record.temporary then " temporary" else "")
                           + "' does not contain a definition for '" + site.suffix.name.value + "'"
  {
    hide Lower, ScopeFor, WithEntries, IsMember, LastSpelling, QuoteIfNeeded, Redoubled, IsPlainName, IsDeclared;
    var tables := WithEntries(map[], entries);
    assert Check(lang, tables, obj, ctx, site) == CheckMember(lang, tables, Some(record), site.suffix);
    TableIs(entries, record.table);
    DisplayIs(entries, record.table);
    var table := FactsAt(tables, Lower(record.table)).display.value;
    QuotedIf(table);
  }

  lemma {:induction false} NameMessage(lang: Language, tables: Tables, obj: Object, ctx: Context, site: Site)
    requires Check(lang, tables, obj, ctx, site).Some?
    requires Check(lang, tables, obj, ctx, site).value.code == AL0118
    ensures site.name.Some?
    ensures Check(lang, tables, obj, ctx, site).value
            == Diagnostic(site.at, AL0118, "The name '" + site.name.value + "' does not exist in the current context.")
  {
    hide Lower, ScopeFor, TableOf, IsMember, QuoteIfNeeded, ImplicitRecord;
  }

  // ----- Packages and trees -----

  /** What is known of a table that was read from packages alone. */
  lemma {:induction false} ExternalSays(external: External, key: string)
    ensures var tables := WithExternal(map[], external);
            && (TableOf(tables, key).Some? <==> key in external.tables)
            && (key in external.tables ==>
                  && (forall n :: n in tables[key].fields <==> (key, n) in external.fields)
                  && (forall n :: n in tables[key].members <==> (key, n) in external.methods))
  {
    hide WithExternal, NamesFor;
    ExternalAt(map[], external, key);
    NamesForIs(external.fields, key);
    NamesForIs(external.methods, key);
  }

  lemma {:induction false} NamesForIs(pairs: seq<(string, string)>, key: string)
    ensures forall n :: n in NamesFor(pairs, key) <==> (key, n) in pairs
  {
  }

  /** The node that is reached through these children. */
  function NodeAt(tree: Tree, path: seq<nat>): Option<Tree> {
    if path == [] then Some(tree)
    else if path[0] < |tree.children| then NodeAt(tree.children[path[0]], path[1..])
    else None
  }

  ghost predicate Holds(tree: Tree, site: Site) {
    exists path :: NodeAt(tree, path).Some? && NodeAt(tree, path).value.site == Some(site)
  }

  lemma {:induction false} MetIsAnyChild(trees: seq<Tree>, site: Site)
    ensures site in Met(trees) <==> exists i :: 0 <= i < |trees| && site in MetIn(trees[i])
    decreases trees
  {
    if trees != [] {
      hide MetIn, Met;
      var n := |trees| - 1;
      MetFromLast(trees);
      MetIsAnyChild(trees[..n], site);
      assert forall i :: 0 <= i < n ==> trees[..n][i] == trees[i];
    }
  }

  /** The walk meets every expression of the tree, however deep, and nothing else. */
  lemma {:induction false} WalkMeets(tree: Tree, site: Site)
    ensures site in MetIn(tree) <==> Holds(tree, site)
    decreases tree
  {
    hide Met;
    MetInUnfolds(tree);
    MetIsAnyChild(tree.children, site);
    forall i | 0 <= i < |tree.children|
      ensures site in MetIn(tree.children[i]) <==> Holds(tree.children[i], site)
    {
      WalkMeets(tree.children[i], site);
    }
    HoldsUnfolds(tree, site);
  }

  lemma {:induction false} MetInUnfolds(tree: Tree)
    ensures MetIn(tree) == (if tree.site.Some? then [tree.site.value] else []) + Met(tree.children)
  {
  }

  lemma {:induction false} HoldsUnfolds(tree: Tree, site: Site)
    ensures Holds(tree, site) <==>
            tree.site == Some(site) || exists i :: 0 <= i < |tree.children| && Holds(tree.children[i], site)
  {
    if tree.site == Some(site) {
      assert NodeAt(tree, []) == Some(tree);
    }
    if i :| 0 <= i < |tree.children| && Holds(tree.children[i], site) {
      var path :| NodeAt(tree.children[i], path).Some? && NodeAt(tree.children[i], path).value.site == Some(site);
      assert ([i] + path)[1..] == path;
      assert NodeAt(tree, [i] + path) == NodeAt(tree.children[i], path);
    }
    if Holds(tree, site) && tree.site != Some(site) {
      var path :| NodeAt(tree, path).Some? && NodeAt(tree, path).value.site == Some(site);
      assert path != [];
      assert NodeAt(tree.children[path[0]], path[1..]) == NodeAt(tree, path);
      assert Holds(tree.children[path[0]], site);
    }
  }

  lemma {:induction false} DiagnosedSomewhere(lang: Language, tables: Tables, obj: Object, ctx: Context,
                                              sites: seq<Site>, d: Diagnostic)
    ensures d in Diagnose(lang, tables, obj, ctx, sites) <==>
            exists i :: 0 <= i < |sites| && Check(lang, tables, obj, ctx, sites[i]) == Some(d)
  {
    hide Check;
    if sites != [] {
      var n := |sites| - 1;
      DiagnosedSomewhere(lang, tables, obj, ctx, sites[..n], d);
      assert forall i :: 0 <= i < n ==> sites[..n][i] == sites[i];
    }
  }

  /** A diagnostic is reported for an object if and only if some expression in its tree gives it. */
  lemma {:induction false} ReportedSomewhere(lang: Language, tables: Tables, obj: Object, d: Diagnostic)
    ensures d in Report(lang, tables, obj) <==>
            && ContextOf(tables, obj).Some?
            && exists site :: Holds(obj.tree, site)
                              && Check(lang, tables, obj, ContextOf(tables, obj).value, site) == Some(d)
  {
    hide Check, ContextOf, Diagnose, MetIn, Holds;
    var ctx := ContextOf(tables, obj);
    if ctx.Some? {
      var sites := MetIn(obj.tree);
      DiagnosedSomewhere(lang, tables, obj, ctx.value, sites, d);
      forall site ensures site in sites <==> Holds(obj.tree, site) {
        WalkMeets(obj.tree, site);
      }
      if i :| 0 <= i < |sites| && Check(lang, tables, obj, ctx.value, sites[i]) == Some(d) {
        assert Holds(obj.tree, sites[i]);
      }
      if site :| Holds(obj.tree, site) && Check(lang, tables, obj, ctx.value, site) == Some(d) {
        var i :| 0 <= i < |sites| && sites[i] == site;
      }
    }
  }
}
