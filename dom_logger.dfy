/** DOMCreatorLogger: a registry of the records of created DOM elements,
    keyed by element id. The object's own key order (insertion order, an
    overwrite keeping the key's place) is kept as `order`. */
module DomLogger {
  import opened Util
  import opened TraceBuffer
  import opened DependencyGraph

  /** One logged element; the ISO timestamp and the stack trace are inputs. */
  datatype Record = Record(moduleId: string, functionId: string, componentId: string,
                           timestamp: string, stackTrace: string)

  /** `{id, ...data}` */
  datatype Tagged = Tagged(id: string, data: Record)

  class Logger {
    var elements: map<string, Record>
    var order: seq<string>

    /** `order` lists every key of `elements` once. */
    predicate Valid()
      reads this
    {
      Distinct(order) && (set id | id in order) == elements.Keys
    }

    constructor ()
      ensures Valid() && elements == map[] && order == []
    {
      elements := map[];
      order := [];
    }

    /** log: a falsy (empty) element id is ignored; otherwise the record is
        stored under the id, replacing any earlier one, and a new id goes
        last in key order. */
    method Log(elementId: string, moduleId: string, functionId: string, componentId: string,
               timestamp: string, stackTrace: string)
      requires Valid()
      modifies this
      ensures Valid()
      ensures elementId == "" ==> elements == old(elements) && order == old(order)
      ensures elementId != "" ==>
                elements == old(elements)[elementId := Record(moduleId, functionId, componentId, timestamp, stackTrace)] &&
                order == if elementId in old(elements) then old(order) else old(order) + [elementId]
    {
      if elementId == "" {
        return;
      }
      if elementId !in elements {
        order := order + [elementId];
      }
      elements := elements[elementId := Record(moduleId, functionId, componentId, timestamp, stackTrace)];
    }

    /** get: the record of the id, or undefined. */
    function Get(elementId: string): (r: Option<Record>)
      reads this
      ensures r.Some? <==> elementId in elements
      ensures r.Some? ==> r.value == elements[elementId]
    {
      if elementId in elements then Some(elements[elementId]) else None
    }

    /** getByModule: the entries of that module, in key order, each tagged
        with its id. */
    function GetByModule(moduleId: string): (r: seq<Tagged>)
      reads this
      ensures |r| <= |order|
    {
      var ids := Filter(order, InModule(elements, moduleId));
      seq(|ids|, i requires 0 <= i < |ids| reads this => Tagged(ids[i], if ids[i] in elements then elements[ids[i]] else Blank))
    }

    /** clear: the registry is replaced by an empty one. */
    method Clear()
      modifies this
      ensures Valid() && elements == map[] && order == []
    {
      elements := map[];
      order := [];
    }
  }

  const Blank := Record("", "", "", "", "")

  function InModule(elements: map<string, Record>, moduleId: string): string -> bool {
    (id: string) => id in elements && elements[id].moduleId == moduleId
  }

  /** getByModule returns exactly the logged entries whose moduleId matches,
      each with its own record. */
  lemma GetByModuleSpec(l: Logger, moduleId: string, t: Tagged)
    requires l.Valid()
    ensures t in l.GetByModule(moduleId) <==>
              t.id in l.elements && l.elements[t.id] == t.data && t.data.moduleId == moduleId
  {
    var p := InModule(l.elements, moduleId);
    var ids := Filter(l.order, p);
    var r := l.GetByModule(moduleId);
    FilterCounts(l.order, p, t.id);
    if t in r {
      var i :| 0 <= i < |r| && r[i] == t;
      assert ids[i] == t.id;
      FilterCounts(l.order, p, ids[i]);
      assert ids[i] in ids;
    }
    if t.id in l.elements && l.elements[t.id] == t.data && t.data.moduleId == moduleId {
      var i :| 0 <= i < |ids| && ids[i] == t.id;
      assert r[i] == t;
    }
  }
  /** getByModule lists its entries in the registry's key order: two entries
      of the module logged under keys at positions x < y come back in that
      order. */
  lemma GetByModuleKeyOrder(l: Logger, moduleId: string, x: nat, y: nat)
    requires l.Valid() && x < y < |l.order|
    requires InModule(l.elements, moduleId)(l.order[x]) && InModule(l.elements, moduleId)(l.order[y])
    ensures exists i, j :: 0 <= i < j < |l.GetByModule(moduleId)| &&
              l.GetByModule(moduleId)[i].id == l.order[x] && l.GetByModule(moduleId)[j].id == l.order[y]
  {
    var ids := Filter(l.order, InModule(l.elements, moduleId));
    FilterKeepsOrder(l.order, InModule(l.elements, moduleId), x, y);
    var j := |Filter(l.order[..y], InModule(l.elements, moduleId))|;
    var i :| 0 <= i < j && ids[..j][i] == l.order[x];
    assert l.GetByModule(moduleId)[i].id == ids[i] && l.GetByModule(moduleId)[j].id == ids[j];
  }
}
