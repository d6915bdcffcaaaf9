/** A role's permissions as rows, and as the "module.action" strings clients read and write. */
module Rbac {
  import opened Wrappers

  datatype Action = View | Add | Edit | Delete | Approve | Admin

  /** The actions in the order of their columns. */
  const ACTIONS: seq<Action> := [View, Add, Edit, Delete, Approve, Admin]

  function NameOf(a: Action): string {
    match a
    case View => "view"
    case Add => "add"
    case Edit => "edit"
    case Delete => "delete"
    case Approve => "approve"
    case Admin => "admin"
  }

  function ActionOf(name: string): Option<Action> {
    if name == "view" then Some(View)
    else if name == "add" then Some(Add)
    else if name == "edit" then Some(Edit)
    else if name == "delete" then Some(Delete)
    else if name == "approve" then Some(Approve)
    else if name == "admin" then Some(Admin)
    else None
  }

  /** A module; its position is its id, and the table is kept in listing order. */
  datatype ModuleRow = ModuleRow(code: string, active: bool)

  /** The code column is unique. */
  predicate UniqueCodes(modules: seq<ModuleRow>) {
    forall i, j :: 0 <= i < j < |modules| ==> modules[i].code != modules[j].code
  }

  /** The permission rows: for a role and a module, the actions whose column is true. */
  type Rows = map<RowKey, set<Action>>

  datatype RowKey = RowKey(role: nat, id: nat)

  // ----- the parser -----------------------------------------------------------------------

  function LastDot(s: string): (r: Option<nat>)
    ensures r.Some? ==> r.value < |s| && s[r.value] == '.' && forall i :: r.value < i < |s| ==> s[i] != '.'
    ensures r.None? ==> forall i :: 0 <= i < |s| ==> s[i] != '.'
  {
    if s == [] then None
    else if s[|s| - 1] == '.' then Some(|s| - 1) else LastDot(s[..|s| - 1])
  }

  function FindModule(modules: seq<ModuleRow>, code: string): (r: Option<nat>)
    ensures r.Some? ==> r.value < |modules| && modules[r.value].code == code
    ensures r.None? ==> forall i :: 0 <= i < |modules| ==> modules[i].code != code
  {
    if modules == [] then None
    else if modules[|modules| - 1].code == code then Some(|modules| - 1) else FindModule(modules[..|modules| - 1], code)
  }

  datatype Grant = Grant(id: nat, action: Action)

  /** What an entry grants: it is split at its last dot, and anything unknown is skipped. */
  function Parse(modules: seq<ModuleRow>, entry: string): (r: Option<Grant>)
    ensures r.Some? ==> r.value.id < |modules|
  {
    var dot := LastDot(entry);
    if dot.None? then None
    else
      var found, action := FindModule(modules, entry[..dot.value]), ActionOf(entry[dot.value + 1..]);
      if found.None? || action.None? then None else Some(Grant(found.value, action.value))
  }

  function Entry(modules: seq<ModuleRow>, g: Grant): string
    requires g.id < |modules|
  {
    modules[g.id].code + "." + NameOf(g.action)
  }

  lemma NamesRoundTrip(a: Action)
    ensures ActionOf(NameOf(a)) == Some(a)
    ensures forall i :: 0 <= i < |NameOf(a)| ==> NameOf(a)[i] != '.'
  {
  }

  lemma NamesBack(name: string)
    requires ActionOf(name).Some?
    ensures NameOf(ActionOf(name).value) == name
  {
  }

  /** Printing a grant and parsing it gives it back, even when the module code has dots of its own. */
  lemma ParseOfEntry(modules: seq<ModuleRow>, g: Grant)
    requires UniqueCodes(modules) && g.id < |modules|
    ensures Parse(modules, Entry(modules, g)) == Some(g)
  {
    var code, name := modules[g.id].code, NameOf(g.action);
    var entry := Entry(modules, g);
    NamesRoundTrip(g.action);
    assert entry[|code|] == '.' && entry[..|code|] == code && entry[|code| + 1..] == name;
    var dot := LastDot(entry);
    assert forall i :: |code| < i < |entry| ==> entry[i] == name[i - |code| - 1];
    assert dot == Some(|code|);
  }

  /** An entry that parses is the printed form of what it grants. */
  lemma EntryOfParse(modules: seq<ModuleRow>, entry: string)
    requires Parse(modules, entry).Some?
    ensures Entry(modules, Parse(modules, entry).value) == entry
  {
    var dot := LastDot(entry).value;
    NamesBack(entry[dot + 1..]);
    assert entry == entry[..dot] + "." + entry[dot + 1..];
  }

  // ----- applying a list ------------------------------------------------------------------

  /** The actions the entries grant on a module. */
  function Granted(modules: seq<ModuleRow>, entries: seq<string>, id: nat): set<Action> {
    if entries == [] then {}
    else
      var g := Parse(modules, entries[|entries| - 1]);
      Granted(modules, entries[..|entries| - 1], id) + if g.Some? && g.value.id == id then {g.value.action} else {}
  }

  lemma {:induction false} GrantedMeans(modules: seq<ModuleRow>, entries: seq<string>, id: nat, a: Action)
    requires UniqueCodes(modules) && id < |modules|
    ensures a in Granted(modules, entries, id) <==> Entry(modules, Grant(id, a)) in entries
  {
    if entries != [] {
      var front, last := entries[..|entries| - 1], entries[|entries| - 1];
      GrantedMeans(modules, front, id, a);
      assert entries == front + [last];
      if Parse(modules, last) == Some(Grant(id, a)) {
        EntryOfParse(modules, last);
      }
      ParseOfEntry(modules, Grant(id, a));
    }
  }

  /** Does the table have the row once the list is applied for the role? */
  predicate Stored(rows: Rows, modules: seq<ModuleRow>, role: nat, entries: seq<string>, k: RowKey) {
    if k.role == role && k.id < |modules| then Granted(modules, entries, k.id) != {} else k in rows
  }

  function Applied(rows: Rows, modules: seq<ModuleRow>, role: nat, entries: seq<string>): Rows {
    map k: RowKey | k in rows.Keys + RoleKeys(role, |modules|) && Stored(rows, modules, role, entries, k)
      :: if k.role == role && k.id < |modules| then Granted(modules, entries, k.id) else rows[k]
  }

  function RoleKeys(role: nat, n: nat): set<RowKey> {
    set m: nat | 0 <= m < n :: RowKey(role, m)
  }

  datatype User = User(superuser: bool, role: Option<nat>)

  /** The row behind a module code for the user's role, active module or not. */
  function Listed(rows: Rows, modules: seq<ModuleRow>, u: User, code: string): Option<set<Action>> {
    var m := FindModule(modules, code);
    if u.role.None? || m.None? || RowKey(u.role.value, m.value) !in rows then None
    else Some(rows[RowKey(u.role.value, m.value)])
  }

  lemma FindUnique(modules: seq<ModuleRow>, id: nat)
    requires UniqueCodes(modules) && id < |modules|
    ensures FindModule(modules, modules[id].code) == Some(id)
  {
  }

  lemma SyncedRows(rows: Rows, after: Rows, modules: seq<ModuleRow>, role: nat, entries: seq<string>)
    requires forall k: RowKey :: k in after <==> Stored(rows, modules, role, entries, k)
    requires forall k: RowKey :: k in after ==>
      after[k] == if k.role == role && k.id < |modules| then Granted(modules, entries, k.id)
                  else if k in rows then rows[k] else {}
    ensures after == Applied(rows, modules, role, entries)
  {
    var applied := Applied(rows, modules, role, entries);
    forall k: RowKey ensures k in after <==> k in applied {
      if k.role == role && k.id < |modules| {
        assert k in RoleKeys(role, |modules|);
      }
    }
  }

  class PermissionTable {
    var rows: Rows
    var modules: seq<ModuleRow>

    constructor (modules: seq<ModuleRow>)
      ensures this.modules == modules && rows == map[]
    {
      this.modules := modules;
      rows := map[];
    }

    method ApplyRolePermissions(role: nat, entries: seq<string>)
      modifies this`rows
      ensures rows == Applied(old(rows), modules, role, entries)
    {
      var granted := CollectGrants(entries);
      ghost var before := rows;
      UpsertGrants(role, granted);
      // drop the rows of listed modules left without a grant
      rows := map k: RowKey | k in rows && !(k.role == role && k.id < |modules| && k.id !in granted) :: rows[k];
      SyncedRows(before, rows, modules, role, entries);
    }

    method UpsertGrants(role: nat, granted: map<nat, set<Action>>)
      modifies this`rows
      ensures forall k: RowKey :: k in rows <==> k in old(rows) || (k.role == role && k.id in granted)
      ensures forall k: RowKey :: k in rows ==> rows[k] == if k.role == role && k.id in granted then granted[k.id]
          else old(rows)[k]
    {
      var pending := granted.Keys;
      while pending != {}
        invariant pending <= granted.Keys
        invariant forall k: RowKey ::
          k in rows <==> k in old(rows) || (k.role == role && k.id in granted.Keys - pending)
        invariant forall k: RowKey :: k in rows ==>
          rows[k] == if k.role == role && k.id in granted.Keys - pending then granted[k.id] else old(rows)[k]
        decreases pending
      {
        var id :| id in pending;
        rows := rows[RowKey(role, id) := granted[id]];
        pending := pending - {id};
      }
    }

    /** The grants of a list, by module: only modules granted something. */
    method CollectGrants(entries: seq<string>) returns (granted: map<nat, set<Action>>)
      ensures forall id: nat :: id in granted <==> id < |modules| && Granted(modules, entries, id) != {}
      ensures forall id: nat :: id in granted ==> granted[id] == Granted(modules, entries, id)
    {
      granted := map[];
      for i := 0 to |entries|
        invariant forall id: nat :: id in granted <==> id < |modules| && Granted(modules, entries[..i], id) != {}
        invariant forall id: nat :: id in granted ==> granted[id] == Granted(modules, entries[..i], id)
      {
        assert entries[..i + 1][..i] == entries[..i];
        var g := Parse(modules, entries[i]);
        if g.Some? {
          var actions := if g.value.id in granted then granted[g.value.id] else {};
          granted := granted[g.value.id := actions + {g.value.action}];
        }
      }
      assert entries[..|entries|] == entries;
    }

    /** What the login payload tells a user: by module code, the actions whose column is true. */
    method EffectivePermissions(u: User) returns (result: map<string, set<Action>>)
      requires UniqueCodes(modules)
      ensures forall code: string :: code in result <==> Listed(rows, modules, u, code).Some?
      ensures forall code: string :: code in result ==> result[code] == Listed(rows, modules, u, code).value
    {
      result := map[];
      if u.role.None? {
        return;
      }
      for m := 0 to |modules|
        invariant forall code: string :: code in result <==>
          Listed(rows, modules, u, code).Some? && FindModule(modules, code).value < m
        invariant forall code: string :: code in result ==> result[code] == Listed(rows, modules, u, code).value
      {
        FindUnique(modules, m);
        if RowKey(u.role.value, m) in rows {
          result := result[modules[m].code := rows[RowKey(u.role.value, m)]];
        }
      }
    }

    method ReadRolePermissions(role: nat) returns (entries: seq<string>)
      ensures entries == Printed(rows, modules, role, |modules|)
    {
      entries := [];
      for m := 0 to |modules|
        invariant entries == Printed(rows, modules, role, m)
      {
        if RowKey(role, m) in rows {
          var before := entries;
          for a := 0 to |ACTIONS|
            invariant entries == before + PrintedRow(modules[m].code, rows[RowKey(role, m)], a)
          {
            if ACTIONS[a] in rows[RowKey(role, m)] {
              entries := entries + [modules[m].code + "." + NameOf(ACTIONS[a])];
            }
          }
        }
      }
    }
  }

  // ----- the printer ----------------------------------------------------------------------

  /** The entries of one row's first n columns. */
  function PrintedRow(code: string, actions: set<Action>, n: nat): seq<string>
    requires n <= |ACTIONS|
  {
    if n == 0 then []
    else PrintedRow(code, actions, n - 1) + if ACTIONS[n - 1] in actions then [code + "." + NameOf(ACTIONS[n - 1])]
        else []
  }

  /** The entries of the role's rows on the first n modules. */
  function Printed(rows: Rows, modules: seq<ModuleRow>, role: nat, n: nat): seq<string>
    requires n <= |modules|
  {
    if n == 0 then []
    else
      Printed(rows, modules, role, n - 1)
      + if RowKey(role, n - 1) in rows then PrintedRow(modules[n - 1].code, rows[RowKey(role, n - 1)], |ACTIONS|)
          else []
  }

  function Read(rows: Rows, modules: seq<ModuleRow>, role: nat): seq<string> {
    Printed(rows, modules, role, |modules|)
  }

  predicate Has(rows: Rows, role: nat, g: Grant) {
    RowKey(role, g.id) in rows && g.action in rows[RowKey(role, g.id)]
  }

  lemma {:induction false} RowPrints(code: string, actions: set<Action>, n: nat, s: string)
    requires n <= |ACTIONS|
    ensures s in PrintedRow(code, actions, n)
       <==> exists i :: 0 <= i < n && ACTIONS[i] in actions && s == code + "." + NameOf(ACTIONS[i])
  {
    if n > 0 {
      RowPrints(code, actions, n - 1, s);
    }
  }

  lemma {:induction false} PrintedMeans(rows: Rows, modules: seq<ModuleRow>, role: nat, n: nat, s: string)
    requires n <= |modules|
    ensures s in Printed(rows, modules, role, n)
       <==> exists g: Grant :: g.id < n && Has(rows, role, g) && s == Entry(modules, g)
  {
    if n > 0 {
      PrintedMeans(rows, modules, role, n - 1, s);
      if RowKey(role, n - 1) in rows {
        var actions := rows[RowKey(role, n - 1)];
        RowPrints(modules[n - 1].code, actions, |ACTIONS|, s);
        forall g: Grant | g.id == n - 1 && Has(rows, role, g) && s == Entry(modules, g)
          ensures s in PrintedRow(modules[n - 1].code, actions, |ACTIONS|)
        {
          var i := ColumnOf(g.action);
          assert ACTIONS[i] == g.action;
        }
        if s in PrintedRow(modules[n - 1].code, actions, |ACTIONS|) {
          var i :| 0 <= i < |ACTIONS| && ACTIONS[i] in actions && s == modules[n - 1].code + "." + NameOf(ACTIONS[i]);
          assert Has(rows, role, Grant(n - 1, ACTIONS[i])) && s == Entry(modules, Grant(n - 1, ACTIONS[i]));
        }
      }
    }
  }

  function ColumnOf(a: Action): (i: nat)
    ensures i < |ACTIONS| && ACTIONS[i] == a
  {
    match a
    case View => 0
    case Add => 1
    case Edit => 2
    case Delete => 3
    case Approve => 4
    case Admin => 5
  }

  /** Reading a role lists exactly the grants its rows hold. */
  lemma ReadMeans(rows: Rows, modules: seq<ModuleRow>, role: nat, g: Grant)
    requires UniqueCodes(modules) && g.id < |modules|
    ensures Entry(modules, g) in Read(rows, modules, role) <==> Has(rows, role, g)
  {
    PrintedMeans(rows, modules, role, |modules|, Entry(modules, g));
    if Entry(modules, g) in Read(rows, modules, role) {
      var h: Grant :| h.id < |modules| && Has(rows, role, h) && Entry(modules, g) == Entry(modules, h);
      ParseOfEntry(modules, g);
      ParseOfEntry(modules, h);
    }
  }

  // ----- round trips ----------------------------------------------------------------------

  lemma AppliedHas(rows: Rows, modules: seq<ModuleRow>, role: nat, entries: seq<string>, g: Grant)
    requires UniqueCodes(modules) && g.id < |modules|
    ensures Has(Applied(rows, modules, role, entries), role, g) <==> Entry(modules, g) in entries
  {
    GrantedMeans(modules, entries, g.id, g.action);
    assert RowKey(role, g.id) in RoleKeys(role, |modules|);
  }

  /** Applying any list and reading the role back gives exactly the list's valid entries, as a set. */
  lemma ReadAfterApply(rows: Rows, modules: seq<ModuleRow>, role: nat, entries: seq<string>, s: string)
    requires UniqueCodes(modules)
    ensures s in Read(Applied(rows, modules, role, entries), modules, role) <==> s in entries && Parse(modules, s).Some?
  {
    var after := Applied(rows, modules, role, entries);
    PrintedMeans(after, modules, role, |modules|, s);
    if s in Read(after, modules, role) {
      var g: Grant :| g.id < |modules| && Has(after, role, g) && s == Entry(modules, g);
      AppliedHas(rows, modules, role, entries, g);
      ParseOfEntry(modules, g);
    }
    if s in entries && Parse(modules, s).Some? {
      var g := Parse(modules, s).value;
      EntryOfParse(modules, s);
      AppliedHas(rows, modules, role, entries, g);
    }
  }

  /** Two lists with the same valid entries, in any order and number, leave the same table. */
  lemma AppliedBySet(rows: Rows, modules: seq<ModuleRow>, role: nat, first: seq<string>, second: seq<string>)
    requires UniqueCodes(modules)
    requires forall s :: Parse(modules, s).Some? ==> (s in first <==> s in second)
    ensures Applied(rows, modules, role, first) == Applied(rows, modules, role, second)
  {
    forall id: nat | id < |modules| ensures Granted(modules, first, id) == Granted(modules, second, id) {
      forall a ensures a in Granted(modules, first, id) <==> a in Granted(modules, second, id) {
        GrantedMeans(modules, first, id, a);
        GrantedMeans(modules, second, id, a);
        ParseOfEntry(modules, Grant(id, a));
      }
    }
  }

  /** The role has no row on a listed module with every column false. */
  predicate NoEmptyRow(rows: Rows, modules: seq<ModuleRow>, role: nat) {
    forall id :: 0 <= id < |modules| ==> RowKey(role, id) in rows ==> rows[RowKey(role, id)] != {}
  }

  /** Applying what was just read changes nothing, exactly when no row is empty; an empty row is
      dropped. */
  lemma ApplyWhatWasRead(rows: Rows, modules: seq<ModuleRow>, role: nat)
    requires UniqueCodes(modules)
    ensures Applied(rows, modules, role, Read(rows, modules, role)) == rows <==> NoEmptyRow(rows, modules, role)
  {
    var entries := Read(rows, modules, role);
    var after := Applied(rows, modules, role, entries);
    forall id: nat | id < |modules|
      ensures Granted(modules, entries, id) == if RowKey(role, id) in rows then rows[RowKey(role, id)] else {}
    {
      forall a ensures a in Granted(modules, entries, id) <==> Has(rows, role, Grant(id, a)) {
        GrantedMeans(modules, entries, id, a);
        ReadMeans(rows, modules, role, Grant(id, a));
      }
      assert Granted(modules, entries, id) == if RowKey(role, id) in rows then rows[RowKey(role, id)] else {};
    }
    if NoEmptyRow(rows, modules, role) {
      forall k: RowKey ensures k in after <==> k in rows {
        if k.role == role && k.id < |modules| {
          assert k in RoleKeys(role, |modules|);
        }
      }
      assert after == rows;
    } else {
      var id :| 0 <= id < |modules| && RowKey(role, id) in rows && rows[RowKey(role, id)] == {};
      assert RowKey(role, id) !in after;
    }
  }

  lemma AppliedHasNoEmptyRow(rows: Rows, modules: seq<ModuleRow>, role: nat, entries: seq<string>)
    ensures NoEmptyRow(Applied(rows, modules, role, entries), modules, role)
  {
  }

  /** After one application, applying what is read is a fixed point, applying the list again changes
      nothing, and no other role's rows were touched. */
  lemma ApplyIsIdempotent(rows: Rows, modules: seq<ModuleRow>, role: nat, entries: seq<string>, other: nat, id: nat)
    requires UniqueCodes(modules)
    ensures var after := Applied(rows, modules, role, entries);
      && Applied(after, modules, role, Read(after, modules, role)) == after
      && Applied(after, modules, role, entries) == after
      && (other != role ==> (RowKey(other, id) in after <==> RowKey(other, id) in rows)
                            && (RowKey(other, id) in rows ==> after[RowKey(other, id)] == rows[RowKey(other, id)]))
  {
    var after := Applied(rows, modules, role, entries);
    AppliedHasNoEmptyRow(rows, modules, role, entries);
    ApplyWhatWasRead(after, modules, role);
    forall s | Parse(modules, s).Some? ensures s in entries <==> s in Read(after, modules, role) {
      ReadAfterApply(rows, modules, role, entries, s);
    }
    AppliedBySet(after, modules, role, entries, Read(after, modules, role));
  }

  // ----- the permission check -------------------------------------------------------------

  function UserHasPermission(rows: Rows, modules: seq<ModuleRow>, u: User, code: string, a: Action): bool {
    if u.superuser then true
    else if u.role.None? then false
    else
      var m := FindModule(modules, code);
      m.Some? && modules[m.value].active && RowKey(u.role.value, m.value) in rows
          && a in rows[RowKey(u.role.value, m.value)]
  }

  /** What the login payload lists for a user under a module code: the actions of the role's row for the module
      of that code, whether or not the module is active. */
  lemma PayloadMeans(rows: Rows, modules: seq<ModuleRow>, u: User, code: string)
    requires UniqueCodes(modules)
    ensures var listed := Listed(rows, modules, u, code);
      && (listed.Some? <==> u.role.Some? && exists id: nat :: id < |modules| && modules[id].code == code
                                                              && RowKey(u.role.value, id) in rows)
      && (listed.Some? ==> forall id: nat :: id < |modules| && modules[id].code == code ==>
            RowKey(u.role.value, id) in rows && rows[RowKey(u.role.value, id)] == listed.value)
  {
    forall id: nat | id < |modules| && modules[id].code == code ensures FindModule(modules, code) == Some(id) {
      FindUnique(modules, id);
    }
  }

  /** The login payload agrees with the check on active modules, and still lists what a role holds on an
      inactive one, where the check refuses. */
  lemma PayloadAgreesWhenActive(rows: Rows, modules: seq<ModuleRow>, u: User, code: string, a: Action)
    requires !u.superuser
    ensures UserHasPermission(rows, modules, u, code, a)
       <==> Listed(rows, modules, u, code).Some? && a in Listed(rows, modules, u, code).value
            && modules[FindModule(modules, code).value].active
  {
  }

  /** The whole check: a superuser may do everything; anyone else needs a role with the action's column true on
      the module of that code, and the module must be active. */
  lemma CheckMeans(rows: Rows, modules: seq<ModuleRow>, u: User, code: string, a: Action)
    requires UniqueCodes(modules)
    ensures UserHasPermission(rows, modules, u, code, a)
       <==> u.superuser
            || (u.role.Some? && exists id: nat :: id < |modules| && modules[id].code == code && modules[id].active
                                               && Has(rows, u.role.value, Grant(id, a)))
  {
    var m := FindModule(modules, code);
    if !u.superuser && u.role.Some? && m.Some? {
      forall id: nat | id < |modules| && modules[id].code == code ensures id == m.value {
        FindUnique(modules, id);
      }
    }
  }

  /** For anyone but a superuser the check is membership of "module.action" in what the role reads -
      provided the module is active: an inactive module grants nothing, though its entries are listed. */
  lemma CheckIsMembership(rows: Rows, modules: seq<ModuleRow>, u: User, id: nat, a: Action)
    requires UniqueCodes(modules) && id < |modules| && !u.superuser
    ensures UserHasPermission(rows, modules, u, modules[id].code, a)
       <==> modules[id].active && u.role.Some? && Entry(modules, Grant(id, a)) in Read(rows, modules, u.role.value)
  {
    if u.role.Some? {
      ReadMeans(rows, modules, u.role.value, Grant(id, a));
    }
  }

  /** After a list is applied to a user's role, the check answers by the list alone. */
  lemma CheckAfterApply(rows: Rows, modules: seq<ModuleRow>, role: nat, entries: seq<string>, id: nat, a: Action)
    requires UniqueCodes(modules) && id < |modules|
    ensures UserHasPermission(Applied(rows, modules, role, entries), modules, User(false, Some(role)),
        modules[id].code, a)
       <==> modules[id].active && Entry(modules, Grant(id, a)) in entries
  {
    CheckIsMembership(Applied(rows, modules, role, entries), modules, User(false, Some(role)), id, a);
    ReadMeans(Applied(rows, modules, role, entries), modules, role, Grant(id, a));
    AppliedHas(rows, modules, role, entries, Grant(id, a));
  }
}
