/** The schema service's calls as they execute: DDL first, catalog second, compensation on failure. */
module SchemaService {
  import opened Wrappers
  import opened SchemaCatalog

  class Service {
    var physical: set<Object>
    var catalog: Catalog
    ghost var leftovers: set<Object>
    ghost var ghosts: set<Object>
    ghost var stranded: set<Object>

    constructor ()
      ensures View() == EMPTY
    {
      physical, catalog := {}, EMPTY.catalog;
      leftovers, ghosts, stranded := {}, {}, {};
    }

    ghost function View(): State
      reads this
    {
      State(physical, catalog, leftovers, ghosts, stranded)
    }

    /** One statement in its own transaction; `ok` is false where it raises. */
    method ExecuteTenantDdl(ddl: Ddl, fails: bool) returns (ok: bool)
      modifies this`physical
      ensures ok <==> !fails && Apply(old(physical), ddl).Some?
      ensures physical == if ok then Apply(old(physical), ddl).value else old(physical)
    {
      var r := Apply(physical, ddl);
      ok := !fails && r.Some?;
      if ok {
        physical := r.value;
      }
    }

    /** The catalog transaction; on failure the compensating statement, if any, is tried once. */
    method WriteCatalog(write: Write, compensation: Option<Ddl>, faults: Faults) returns (ok: bool)
      modifies this`physical, this`catalog
      ensures ok <==> !faults.write && Perform(old(catalog), write).Some?
      ensures ok ==> catalog == Perform(old(catalog), write).value && physical == old(physical)
      ensures !ok ==> catalog == old(catalog)
      ensures !ok ==>
        var undone := if compensation.Some? && !faults.compensation then Apply(old(physical), compensation.value) else None;
        physical == if undone.Some? then undone.value else old(physical)
    {
      var r := Perform(catalog, write);
      ok := !faults.write && r.Some?;
      if ok {
        catalog := r.value;
      } else if compensation.Some? {
        var _ := ExecuteTenantDdl(compensation.value, faults.compensation);
      }
    }

    method Execute(op: Operation, faults: Faults) returns (ok: bool)
      modifies this
      ensures View() == Step(old(View()), op, faults)
      ensures ok <==> Allowed(old(catalog), op)
                      && !faults.ddl && Apply(old(physical), Statement(op)).Some?
                      && !faults.write && Perform(old(catalog), CatalogWrite(op)).Some?
    {
      hide Apply, Perform, Allowed;
      if !Allowed(catalog, op) {
        return false;
      }
      ghost var before := physical;
      ok := ExecuteTenantDdl(Statement(op), faults.ddl);
      if !ok {
        return;
      }
      ghost var changed := physical;
      ghost var strands := Strands(catalog, op);
      ok := WriteCatalog(CatalogWrite(op), Compensation(op), faults);
      if ok {
        stranded := stranded + strands;
      } else if Compensation(op).None? {
        ghosts := ghosts + (before - changed);
      } else if faults.compensation || Apply(changed, Compensation(op).value).None? {
        leftovers := leftovers + (changed - before);
      }
    }
  }
}
