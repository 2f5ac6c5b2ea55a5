/**
 * The names the generator puts into the emitted code. Fixed and witness
 * column names become row members after every `.` is replaced by `_`; a
 * shifted column `c` gets the companion member `c_shift`.
 */
module Naming {

  /** `name.replace(".", "_")`. */
  function Mangle(name: string): (r: string)
    ensures |r| == |name|
  {
    if name == [] then [] else [if name[0] == '.' then '_' else name[0]] + Mangle(name[1..])
  }

  /** Every `.` is replaced by `_` and every other character is kept, in place. */
  lemma {:induction false} MangleAt(name: string, i: nat)
    requires i < |name|
    ensures Mangle(name)[i] == (if name[i] == '.' then '_' else name[i])
    decreases |name|
  {
    if i > 0 {
      MangleAt(name[1..], i - 1);
    }
  }

  /** A mangled name never contains a dot. */
  lemma MangleRemovesDots(name: string)
    ensures '.' !in Mangle(name)
  {
    forall i | 0 <= i < |name|
      ensures Mangle(name)[i] != '.'
    {
      MangleAt(name, i);
    }
  }

  /** A name without dots is left as it is, so mangling is idempotent. */
  lemma MangleFixesDotFree(name: string)
    requires '.' !in name
    ensures Mangle(name) == name
  {
    forall i | 0 <= i < |name|
      ensures Mangle(name)[i] == name[i]
    {
      MangleAt(name, i);
    }
  }

  lemma MangleIdempotent(name: string)
    ensures Mangle(Mangle(name)) == Mangle(name)
  {
    MangleRemovesDots(name);
    MangleFixesDotFree(Mangle(name));
  }

  /** The member names generated for a list of column names. */
  function Mangled(names: seq<string>): (r: seq<string>)
    ensures |r| == |names|
    ensures forall i :: 0 <= i < |names| ==> r[i] == Mangle(names[i])
  {
    seq(|names|, i requires 0 <= i < |names| => Mangle(names[i]))
  }

  /** `all_names`: the mangled fixed names followed by the mangled witness names. */
  function AllNames(fixedNames: seq<string>, witnessNames: seq<string>): (r: seq<string>)
    ensures |r| == |fixedNames| + |witnessNames|
    ensures forall i :: 0 <= i < |fixedNames| ==> r[i] == Mangle(fixedNames[i])
    ensures forall i :: 0 <= i < |witnessNames| ==> r[|fixedNames| + i] == Mangle(witnessNames[i])
    ensures forall n :: n in r ==> '.' !in n
  {
    var r := Mangled(fixedNames) + Mangled(witnessNames);
    forall i | 0 <= i < |r|
      ensures '.' !in r[i]
    {
      if i < |fixedNames| {
        assert r[i] == Mangle(fixedNames[i]);
        MangleRemovesDots(fixedNames[i]);
      } else {
        assert r[i] == Mangle(witnessNames[i - |fixedNames|]);
        MangleRemovesDots(witnessNames[i - |fixedNames|]);
      }
    }
    r
  }

  /** The member name `{name}_shift` of a shifted column. */
  function ShiftKey(name: string): string
  {
    name + "_shift"
  }

  /** Different columns have different shift members. */
  lemma ShiftKeyInjective(a: string, b: string)
    requires ShiftKey(a) == ShiftKey(b)
    ensures a == b
  {
    assert |a| == |b|;
    assert a == ShiftKey(a)[..|a|];
    assert b == ShiftKey(b)[..|b|];
  }

  /** The shift members of a list of shifted columns. */
  function ShiftKeys(shifted: seq<string>): (r: seq<string>)
    ensures |r| == |shifted|
    ensures forall i :: 0 <= i < |shifted| ==> r[i] == ShiftKey(shifted[i])
  {
    if shifted == [] then [] else [ShiftKey(shifted[0])] + ShiftKeys(shifted[1..])
  }

  /** True when no name occurs twice. */
  predicate Distinct(names: seq<string>)
  {
    forall i, j :: 0 <= i < j < |names| ==> names[i] != names[j]
  }
}
