/**
 Generation of the SQL Server triggers that stamp `DateModified` on update,
 one per audited entity type. The table name of a type is an override when
 one is given, and otherwise the type name pluralised by a suffix rule.
 */
module DateModifiedTriggers {
  import opened Results
  import opened Text
  import TypeExtensions

  /** An audited entity type: its identity and its short name (`Type.Name`). */
  datatype EntityType = EntityType(fullName: string, name: string)

  /** The optional map of table-name overrides; null behaves as empty. */
  type Overrides = Option<map<EntityType, string>>

  // ---------------------------------------------------------------------
  // Table names
  // ---------------------------------------------------------------------

  /** The suffix rule: a final 's' takes "es", a final 'y' becomes "ies", and
      anything else takes "s". The test is on the exact character. */
  function Pluralise(name: string): (r: string)
    requires name != ""
    ensures |r| > |name| && r[|r| - 1] == 's'
    ensures r[..|name| - 1] == name[..|name| - 1]
    ensures name[|name| - 1] != 'y' ==> r[..|name|] == name
  {
    var last := name[|name| - 1];
    if last == 's' then name + "es"
    else if last == 'y' then name[..|name| - 1] + "ies"
    else name + "s"
  }

  /** What the suffix rule appends after the kept part of the name. */
  lemma {:induction false} PluraliseSuffix(name: string)
    requires name != ""
    ensures name[|name| - 1] == 's' ==> Pluralise(name)[|name|..] == "es"
    ensures name[|name| - 1] == 'y' ==> Pluralise(name)[|name| - 1..] == "ies"
    ensures name[|name| - 1] != 's' && name[|name| - 1] != 'y' ==> Pluralise(name)[|name|..] == "s"
  {
  }

  /** A pluralised name ends in 's', so pluralising it again appends "es". */
  lemma {:induction false} PluraliseTwice(name: string)
    requires name != ""
    ensures Pluralise(Pluralise(name)) == Pluralise(name) + "es"
  {
  }

  /** Whether `t` has an entry in the override map. */
  predicate Overridden(t: EntityType, overrides: Overrides) {
    overrides.Some? && t in overrides.value
  }

  /** The suffix rule reads the last character of the type name only when
      no override applies and the identity branch is not taken; only then
      must the name be non-empty. */
  predicate NameUsable(t: EntityType, overrides: Overrides, identityBranch: bool) {
    Overridden(t, overrides) || identityBranch || t.name != ""
  }

  /** The table name of one audited type. */
  function TableName(t: EntityType, overrides: Overrides, identityBranch: bool): (name: string)
    requires NameUsable(t, overrides, identityBranch)
    ensures Overridden(t, overrides) ==> name == overrides.value[t]
    ensures !Overridden(t, overrides) ==>
              |name| > 0 && name[|name| - 1] == 's'
              && (identityBranch ==> name == "AspNetUsers")
              && (!identityBranch ==> |name| > |t.name| && name[..|t.name| - 1] == t.name[..|t.name| - 1])
  {
    if Overridden(t, overrides) then overrides.value[t]
    else
      var name := if identityBranch then "AspNetUser" else t.name;
      Pluralise(name)
  }

  // ---------------------------------------------------------------------
  // The SQL template
  // ---------------------------------------------------------------------

  /** The lines of the trigger script for the table `name`. */
  function TriggerLines(name: string): seq<string> {
    [ "",
      ExistenceTest + name + "_UPD_DM]', 'TR') IS NOT NULL",
      "   DROP TRIGGER [" + name + "_UPD_DM];",
      "GO",
      "CREATE TRIGGER [dbo].[" + name + "_UPD_DM] ON [dbo].[" + name + "]",
      "    AFTER UPDATE",
      "AS",
      "BEGIN",
      "    SET NOCOUNT ON;",
      "    IF ((SELECT TRIGGER_NESTLEVEL()) > 1) RETURN;",
      "",
      UpdatePrefix + name,
      "    SET DateModified = SYSDATETIMEOFFSET()",
      "    WHERE Id IN (SELECT DISTINCT ID FROM Inserted)",
      "END" ]
  }

  const ExistenceTest := "IF OBJECT_ID ('["
  const UpdatePrefix := "    UPDATE dbo."

  /** The trigger script for the table `name`. */
  function TriggerSql(name: string): string {
    Join(TriggerLines(name), '\n')
  }

  /** `line` is a whole line of `script`. */
  predicate HasLine(script: string, line: string) {
    Occurs("\n" + line + "\n", script)
  }

  /** The script drops `[name_UPD_DM]` if present, creates trigger
      `[dbo].[name_UPD_DM]` on table `[dbo].[name]` after update, and sets
      `DateModified` in `dbo.name`, each on a line of its own. */
  lemma {:induction false} TriggerSqlLines(name: string)
    ensures HasLine(TriggerSql(name), "   DROP TRIGGER [" + name + "_UPD_DM];")
    ensures HasLine(TriggerSql(name), "CREATE TRIGGER [dbo].[" + name + "_UPD_DM] ON [dbo].[" + name + "]")
    ensures HasLine(TriggerSql(name), "    AFTER UPDATE")
    ensures HasLine(TriggerSql(name), "    UPDATE dbo." + name)
    ensures HasLine(TriggerSql(name), "    SET DateModified = SYSDATETIMEOFFSET()")
  {
    var lines := TriggerLines(name);
    JoinedLine(lines, '\n', 2);
    JoinedLine(lines, '\n', 4);
    JoinedLine(lines, '\n', 5);
    JoinedLine(lines, '\n', 11);
    JoinedLine(lines, '\n', 12);
  }

  /** The script starts with an empty line followed by the existence test,
      which names the table first. */
  lemma {:induction false} TriggerSqlStart(name: string)
    ensures |TriggerSql(name)| >= 1 + |ExistenceTest| + |name|
    ensures TriggerSql(name)[..1 + |ExistenceTest|] == "\n" + ExistenceTest
    ensures TriggerSql(name)[1 + |ExistenceTest|..1 + |ExistenceTest| + |name|] == name
  {
    JoinedStart(TriggerLines(name), name, "_UPD_DM]', 'TR') IS NOT NULL");
  }

  /** A joined text whose first line is empty and whose second line is the
      existence test for `name` starts with that test and then `name`. */
  lemma {:induction false} JoinedStart(lines: seq<string>, name: string, suffix: string)
    requires |lines| >= 3 && lines[0] == "" && lines[1] == ExistenceTest + name + suffix
    ensures |Join(lines, '\n')| >= 1 + |ExistenceTest| + |name|
    ensures Join(lines, '\n')[..1 + |ExistenceTest|] == "\n" + ExistenceTest
    ensures Join(lines, '\n')[1 + |ExistenceTest|..1 + |ExistenceTest| + |name|] == name
  {
    var rest := Join(lines[2..], '\n');
    assert lines[1..][1..] == lines[2..];
    assert Join(lines[1..], '\n') == lines[1] + "\n" + rest;
    assert Join(lines, '\n') == "\n" + ExistenceTest + name + (suffix + "\n" + rest);
    NameAfterPrefix("\n", ExistenceTest, name, suffix + "\n" + rest);
  }

  /** Where the parts of `nl + p + n + rest` lie: `n` follows the prefix
      `nl + p` directly. */
  lemma {:induction false} NameAfterPrefix(nl: string, p: string, n: string, rest: string)
    ensures var s := nl + p + n + rest;
            && |s| >= |nl| + |p| + |n|
            && s[..|nl| + |p|] == nl + p
            && s[|nl| + |p|..|nl| + |p| + |n|] == n
  {
    var s := nl + p + n + rest;
    assert s == (nl + p) + n + rest;
  }

  /** The table name appears five times in the script, so the script grows
      by five characters for every character of the name. */
  lemma {:induction false} TriggerSqlLength(name: string)
    ensures |TriggerSql(name)| == |TriggerSql("")| + 5 * |name|
  {
    TriggerLinesLength(name);
    TriggerLinesLength("");
    JoinLength(TriggerLines(name), '\n');
    JoinLength(TriggerLines(""), '\n');
  }

  /** How many times each line of the template names the table. */
  const NameUses: seq<nat> := [0, 1, 1, 0, 2, 0, 0, 0, 0, 0, 0, 1, 0, 0, 0]

  lemma {:induction false} TriggerLinesLength(name: string)
    ensures TotalLength(TriggerLines(name)) == TotalLength(TriggerLines("")) + 5 * |name|
  {
    LineLengths(name);
    WeightedTotal(TriggerLines(name), TriggerLines(""), NameUses, |name|);
    NameUsesSum();
  }

  /** Each line is longer, by the length of the name, once per use of it. */
  lemma {:induction false} LineLengths(name: string)
    ensures |TriggerLines(name)| == |TriggerLines("")| == |NameUses|
    ensures forall k | 0 <= k < |NameUses| ::
              |TriggerLines(name)[k]| == |TriggerLines("")[k]| + NameUses[k] * |name|
  {
  }

  lemma {:induction false} NameUsesSum()
    ensures Sum(NameUses) == 5
  {
    var w := NameUses;
    assert Sum(w[14..]) == 0 by { assert w[14..][1..] == []; }
    assert forall k | 0 <= k < 14 :: Sum(w[k..]) == w[k] + Sum(w[k + 1..]) by {
      forall k | 0 <= k < 14 ensures Sum(w[k..]) == w[k] + Sum(w[k + 1..]) {
        assert w[k..][1..] == w[k + 1..];
      }
    }
    assert w[0..] == w;
  }

  /** Different table names give different scripts. */
  lemma {:induction false} TriggerSqlInjective(a: string, b: string)
    requires TriggerSql(a) == TriggerSql(b)
    ensures a == b
  {
    TriggerSqlLength(a);
    TriggerSqlLength(b);
    TriggerSqlStart(a);
    TriggerSqlStart(b);
  }

  // ---------------------------------------------------------------------
  // The generator
  // ---------------------------------------------------------------------

  /** `IAuditDates`: an interface with no base type, no interfaces of its own,
      no declared fields (its members are properties), and not generic. */
  const AuditDates := TypeExtensions.TypeRecord(
    "Cedita.Essence.EntityFrameworkCore.Audit.IAuditDates", [], [], None, None)

  /** The generator asks whether `IAuditDates` (not the entity type) is
      assignable from the generic identity-user type, so the answer is the
      same for every entity type. */
  function IdentityBranchTaken(identityUser: TypeExtensions.TypeRecord): (b: bool)
    ensures b <==> TypeExtensions.IsAssignableFrom(AuditDates, identityUser)
  {
    TypeExtensions.IsAssignableFromGenericType(AuditDates, identityUser)
  }

  /** `script` drops and re-creates the update trigger `[table_UPD_DM]` on
      `[dbo].[table]`, and the trigger sets `DateModified` in `dbo.table`,
      each on a line of its own. */
  predicate StampsDateModified(script: string, table: string) {
    && HasLine(script, "   DROP TRIGGER [" + table + "_UPD_DM];")
    && HasLine(script, "CREATE TRIGGER [dbo].[" + table + "_UPD_DM] ON [dbo].[" + table + "]")
    && HasLine(script, "    UPDATE dbo." + table)
    && HasLine(script, "    SET DateModified = SYSDATETIMEOFFSET()")
  }

  /** `GetTriggersSql`: one script per audited type, in the order given. */
  function GetTriggersSql(types: seq<EntityType>, overrides: Overrides, identityUser: TypeExtensions.TypeRecord)
    : (scripts: seq<string>)
    requires forall k | 0 <= k < |types| :: NameUsable(types[k], overrides, IdentityBranchTaken(identityUser))
    ensures |scripts| == |types|
  {
    var branch := IdentityBranchTaken(identityUser);
    seq(|types|, k requires 0 <= k < |types| => TriggerSql(TableName(types[k], overrides, branch)))
  }

  /** Every generated script stamps `DateModified` in its own type's table. */
  lemma {:induction false} GeneratedScriptsStamp(types: seq<EntityType>, overrides: Overrides, identityUser: TypeExtensions.TypeRecord)
    requires forall k | 0 <= k < |types| :: NameUsable(types[k], overrides, IdentityBranchTaken(identityUser))
    ensures forall k | 0 <= k < |types| ::
              StampsDateModified(GetTriggersSql(types, overrides, identityUser)[k],
                                 TableName(types[k], overrides, IdentityBranchTaken(identityUser)))
  {
    var scripts := GetTriggersSql(types, overrides, identityUser);
    var branch := IdentityBranchTaken(identityUser);
    forall k | 0 <= k < |types|
      ensures StampsDateModified(scripts[k], TableName(types[k], overrides, branch))
    {
      ScriptStamps(scripts[k], TableName(types[k], overrides, branch));
    }
  }

  /** The script of a table stamps that table. */
  lemma {:induction false} ScriptStamps(script: string, table: string)
    requires script == TriggerSql(table)
    ensures StampsDateModified(script, table)
  {
    TriggerSqlLines(table);
  }

  /** A null override map behaves like an empty one. */
  lemma {:induction false} NullOverridesAreEmpty(types: seq<EntityType>, identityUser: TypeExtensions.TypeRecord)
    requires forall k | 0 <= k < |types| :: NameUsable(types[k], None, IdentityBranchTaken(identityUser))
    ensures GetTriggersSql(types, None, identityUser) == GetTriggersSql(types, Some(map[]), identityUser)
  {
  }
}
