/** The presence tests of `deleteRequest` and `upsertBoss` read a property
    of a plain JavaScript object (`if (table[key])`, `if (!table[key])`).
    A plain object inherits the properties of `Object.prototype`, so for a
    name whose key is one of those property names the read finds the
    inherited value although the table holds no entry under it.

    This module models the two operations as written, with that lookup,
    and exhibits the difference on an empty store. The rest of the model
    (module Tables) tests own entries only, which is what the code evidently
    intends; the lemmas here also show that the two agree on every other
    name. */
module PropertyLookup {
  import opened Records
  import opened Normalize
  import opened Tables

  /** The properties of `Object.prototype` whose names are already lower
      case and free of surrounding spaces, so that a normalised key can
      equal them. Their values (the `Object` function, `Object.prototype`)
      are truthy and are not records. */
  const InheritedNames: set<string> := {"constructor", "__proto__"}

  /** Whether `table[key]` is truthy: an own entry (every record is an
      object, hence truthy) or an inherited property. */
  predicate PresentAsWritten<V>(m: map<string, V>, k: string) {
    k in m || k in InheritedNames
  }

  /** `deleteRequest` as written. For an inherited name the `delete` removes
      nothing, the data is written back unchanged and `true` is returned. */
  function DeleteRequestAsWritten(d: Data, programName: string): (r: Step<bool>)
    requires Valid(d)
    ensures Valid(r.next)
    ensures r.out <==> PresentAsWritten(d.requests, Key(programName))
    ensures Key(programName) !in d.requests ==> r.next == d
  {
    var k := Key(programName);
    if k in d.requests then DeleteRequest(d, programName)
    else if k in InheritedNames then Step(d, true)
    else Step(d, false)
  }

  /** On every name that is not an inherited property the delete as written
      is the corrected one. */
  lemma DeleteAsWrittenAgreesElsewhere(d: Data, programName: string)
    requires Valid(d) && Key(programName) !in InheritedNames
    ensures DeleteRequestAsWritten(d, programName) == DeleteRequest(d, programName)
  {
  }

  /** `deleteRequest("Constructor")` on an empty store reports that it
      deleted a request, although there was none; the corrected delete
      reports `false`. */
  lemma DeleteReportsMissingRequest()
    ensures var d := Empty();
            GetUninstallRequest(d, "Constructor").None?
            && DeleteRequestAsWritten(d, "Constructor").out
            && !DeleteRequest(d, "Constructor").out
  {
    assert ToLower("Constructor") == "constructor";
    TrimOfWord("constructor");
  }

  /** `upsertBoss` as written. `None` stands for the inherited value the
      lookup returns instead of a boss: nothing is created or written. */
  function UpsertBossAsWritten(d: Data, name: string, freshId: string): (r: Step<Option<Boss>>)
    requires Valid(d)
    requires Key(name) !in d.bosses ==> freshId !in BossIds(d.bosses)
    ensures Valid(r.next)
    ensures r.out.None? <==> Key(name) !in d.bosses && Key(name) in InheritedNames
    ensures r.out.None? ==> r.next == d
    ensures r.out.Some? ==> Key(name) in r.next.bosses && r.next.bosses[Key(name)] == r.out.value
  {
    var k := Key(name);
    if k !in d.bosses && k in InheritedNames then Step(d, None)
    else
      var u := UpsertBoss(d, name, freshId);
      Step(u.next, Some(u.out))
  }

  /** On every name that is not an inherited property the upsert as written
      is the corrected one. */
  lemma UpsertAsWrittenAgreesElsewhere(d: Data, name: string, freshId: string)
    requires Valid(d) && Key(name) !in InheritedNames
    requires Key(name) !in d.bosses ==> freshId !in BossIds(d.bosses)
    ensures var u := UpsertBoss(d, name, freshId);
            UpsertBossAsWritten(d, name, freshId) == Step(u.next, Some(u.out))
  {
  }

  /** `upsertBoss("Constructor")` on an empty store creates no boss and
      returns something that is not a boss; the corrected upsert creates
      the boss and returns it. */
  lemma UpsertCreatesNoBossForInheritedName(freshId: string)
    ensures var d := Empty();
            var r := UpsertBossAsWritten(d, "Constructor", freshId);
            r.out.None? && GetBoss(r.next, "Constructor").None?
            && GetBoss(UpsertBoss(d, "Constructor", freshId).next, "Constructor").Some?
  {
    assert ToLower("Constructor") == "constructor";
    TrimOfWord("constructor");
    UpsertBossFinds(Empty(), "Constructor", freshId);
  }

  /** A name without surrounding spaces is its own trim. */
  lemma TrimOfWord(s: string)
    requires s != [] && !IsSpace(s[0]) && !IsSpace(s[|s| - 1])
    ensures Trim(s) == s
  {
  }
}
