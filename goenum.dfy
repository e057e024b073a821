/**
 * The String method Go programs write for an int-valued enumeration: the
 * name from a table for a known value, else "TypeName(n)" with n in decimal.
 */
module GoEnum {
  import GoInt

  /** The table's names are pairwise different. */
  predicate Distinct(names: seq<string>) {
    forall a, b :: 0 <= a < b < |names| ==> names[a] != names[b]
  }

  /** No name in the table begins like the fallback form "TypeName(". */
  predicate NoFallback(names: seq<string>, typeName: string) {
    forall k :: 0 <= k < |names| ==> !(typeName + "(" <= names[k])
  }

  /** A known value prints its table name; any other value prints typeName(n). */
  function Name(names: seq<string>, typeName: string, t: int): (r: string)
    ensures 0 <= t < |names| ==> r == names[t]
    ensures !(0 <= t < |names|) ==> typeName + "(" <= r && r[|r| - 1] == ')'
  {
    if 0 <= t < |names| then names[t] else typeName + "(" + GoInt.FormatInt(t) + ")"
  }

  lemma FallbackDistinct(typeName: string, a: int, b: int)
    requires a != b && GoInt.InInt64(a) && GoInt.InInt64(b)
    ensures typeName + "(" + GoInt.FormatInt(a) + ")" != typeName + "(" + GoInt.FormatInt(b) + ")"
  {
    var fa := GoInt.FormatInt(a);
    var fb := GoInt.FormatInt(b);
    GoInt.FormatIntRoundTrip(a);
    GoInt.FormatIntRoundTrip(b);
    var ra := typeName + "(" + fa + ")";
    var rb := typeName + "(" + fb + ")";
    var n := |typeName| + 1;
    assert ra[n..|ra| - 1] == fa;
    assert rb[n..|rb| - 1] == fb;
  }

  /**
   * With a table of distinct names none of which looks like the fallback,
   * different values (in Go's int range) print differently.
   */
  lemma NameInjective(names: seq<string>, typeName: string, a: int, b: int)
    requires Distinct(names) && NoFallback(names, typeName)
    requires a != b && GoInt.InInt64(a) && GoInt.InInt64(b)
    ensures Name(names, typeName, a) != Name(names, typeName, b)
  {
    if 0 <= a < |names| && 0 <= b < |names| {
      if a < b { assert names[a] != names[b]; } else { assert names[b] != names[a]; }
    } else if !(0 <= a < |names|) && !(0 <= b < |names|) {
      FallbackDistinct(typeName, a, b);
    } else if 0 <= a < |names| {
      assert !(typeName + "(" <= names[a]);
    } else {
      assert !(typeName + "(" <= names[b]);
    }
  }
}
