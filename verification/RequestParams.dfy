/** Request parameters: two parallel slices that act as a map. */
module RequestParams {
  import opened RouteTree

  /** The parameter store of a request. */
  class ParamStore {
    var pNames: seq<string>
    var pValues: seq<string>

    ghost predicate Valid()
      reads this
    {
      |pNames| == |pValues| && forall i, j | 0 <= i < j < |pNames| :: pNames[i] != pNames[j]
    }

    // The store as a map.
    ghost function View(): Params
      requires Valid()
      reads this
    {
      map n | n in pNames :: pValues[IndexOf(pNames, n)]
    }

    constructor ()
      ensures Valid() && View() == map[]
    {
      pNames, pValues := [], [];
    }

    method Param(key: string) returns (v: string)
      requires Valid()
      ensures v == if key in View() then View()[key] else ""
    {
      for i := 0 to |pNames|
        invariant key !in pNames[..i]
      {
        if pNames[i] == key {
          IndexIs(pNames, i);
          return pValues[i];
        }
      }
      assert pNames[..|pNames|] == pNames;
      return "";
    }

    method SetParam(key: string, val: string)
      requires Valid()
      modifies this
      ensures Valid() && View() == old(View())[key := val]
    {
      for i := 0 to |pNames|
        invariant pNames == old(pNames) && pValues == old(pValues) && key !in pNames[..i]
      {
        if pNames[i] == key {
          pValues := pValues[i := val];
          IndexIs(pNames, i);
          return;
        }
      }
      assert pNames[..|pNames|] == pNames;
      ghost var names := pNames;
      pValues := pValues + [val];
      pNames := pNames + [key];
      forall n | n in pNames ensures IndexOf(pNames, n) == if n == key then |names| else IndexOf(names, n) {
        IndexIs(pNames, if n == key then |names| else IndexOf(names, n));
      }
    }

    /** Params: the store copied into a map. */
    method Params() returns (m: Params)
      requires Valid()
      ensures m == View()
    {
      m := map[];
      for i := 0 to |pNames|
        invariant m.Keys == (set n | n in pNames[..i])
        invariant forall j | 0 <= j < i :: m[pNames[j]] == pValues[j]
      {
        m := m[pNames[i] := pValues[i]];
      }
      assert pNames[..|pNames|] == pNames;
    }

    /** The end of a filter turn in execFilter: reset, then set every saved parameter, in any order. */
    method Restore(saved: Params)
      modifies this
      ensures Valid() && View() == saved
    {
      ResetParams();
      var todo := saved.Keys;
      while todo != {}
        invariant Valid() && todo <= saved.Keys
        invariant View() == saved - todo
        decreases todo
      {
        var k :| k in todo;
        SetParam(k, saved[k]);
        todo := todo - {k};
      }
    }

    method ResetParams()
      modifies this
      ensures Valid() && View() == map[]
    {
      pNames, pValues := [], [];
    }
  }

  ghost function IndexOf(names: seq<string>, n: string): (i: nat)
    requires n in names
    ensures i < |names| && names[i] == n
  {
    var i :| 0 <= i < |names| && names[i] == n;
    i
  }

  lemma IndexIs(names: seq<string>, i: nat)
    requires i < |names| && forall j, k | 0 <= j < k < |names| :: names[j] != names[k]
    ensures IndexOf(names, names[i]) == i
  {
  }
}
