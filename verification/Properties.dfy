/** Lines of the form name and value, and the first value under a name. */
module Properties {
  import opened Wrappers

  /** What follows the property name on the first line that starts with it. */
  function Value(lines: seq<string>, name: string): Option<string> {
    if lines == [] then None
    else if name <= lines[0] then Some(lines[0][|name|..])
    else Value(lines[1..], name)
  }

  function Present(value: string): Option<string> {
    if value == "" then None else Some(value)
  }

  lemma {:induction false} ValueOfConcat(a: seq<string>, b: seq<string>, name: string)
    ensures Value(a + b, name) == if Value(a, name).Some? then Value(a, name) else Value(b, name)
  {
    if a == [] {
      assert a + b == b;
    } else {
      assert (a + b)[1..] == a[1..] + b;
      ValueOfConcat(a[1..], b, name);
    }
  }

  /** A line of a property is found under its own name, and under no name that differs from it somewhere. */
  lemma ValueOfLine(prefix: string, value: string, name: string)
    ensures Value([prefix + value], prefix) == Some(value)
    ensures (exists k :: 0 <= k < |prefix| && k < |name| && prefix[k] != name[k]) ==>
        Value([prefix + value], name) == None
  {
    assert (prefix + value)[|prefix|..] == value;
    if k :| 0 <= k < |prefix| && k < |name| && prefix[k] != name[k] {
      assert (prefix + value)[k] == prefix[k];
    }
  }

  /** No property name is the beginning of another. */
  predicate Apart(prefix: string, name: string) {
    exists k :: 0 <= k < |prefix| && k < |name| && prefix[k] != name[k]
  }

  function Flat(parts: seq<seq<string>>, n: nat): seq<string>
    requires n <= |parts|
  {
    if n == 0 then [] else Flat(parts, n - 1) + parts[n - 1]
  }

  /** A name that only one part has is found there, once that part has come. */
  lemma {:induction false} ValueOfFlat(parts: seq<seq<string>>, n: nat, i: nat, name: string)
    requires n <= |parts| && i < |parts| && forall j :: 0 <= j < |parts| && j != i ==> Value(parts[j], name) == None
    ensures Value(Flat(parts, n), name) == if i < n then Value(parts[i], name) else None
  {
    if n > 0 {
      ValueOfFlat(parts, n - 1, i, name);
      ValueOfConcat(Flat(parts, n - 1), parts[n - 1], name);
    }
  }
}
