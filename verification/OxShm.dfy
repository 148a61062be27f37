/** Shared-memory objects as the window server sees them: names that are linked, mappings that are
    live. Releasing something that is not there is a precondition failure, so a caller that
    verifies never releases twice. */
module OxShm {
  import opened Decimal

  class Shm {
    var linked: set<string>
    var mapped: set<nat>
    var next: nat

    ghost predicate Valid()
      reads this
    {
      next > 0 && forall h | h in mapped :: 0 < h < next
    }

    constructor ()
      ensures Valid() && linked == {} && mapped == {}
    {
      linked, mapped, next := {}, {}, 1;
    }

    /** `shm_open(name, O_CREAT)`: opening a name that is still linked would alias its pages. */
    method Open(name: string, ok: bool)
      requires Valid() && name !in linked
      modifies this
      ensures Valid() && mapped == old(mapped)
      ensures linked == if ok then old(linked) + {name} else old(linked)
    {
      if ok { linked := linked + {name}; }
    }

    method Unlink(name: string)
      requires Valid() && name in linked
      modifies this
      ensures Valid() && mapped == old(mapped) && linked == old(linked) - {name}
    {
      linked := linked - {name};
    }

    /** `mmap`: 0 stands for failure. */
    method Map(ok: bool) returns (h: nat)
      requires Valid()
      modifies this
      ensures Valid() && linked == old(linked)
      ensures if ok then h > 0 && h !in old(mapped) && mapped == old(mapped) + {h} else h == 0 && mapped == old(mapped)
    {
      h := 0;
      if ok {
        h := next;
        mapped, next := mapped + {h}, next + 1;
      }
    }

    method Unmap(h: nat)
      requires Valid() && h in mapped
      modifies this
      ensures Valid() && linked == old(linked) && mapped == old(mapped) - {h}
    {
      mapped := mapped - {h};
    }
  }

  /** "/oxw_<id>_v<version>" */
  function ShmName(id: nat, version: nat): string {
    "/oxw_" + (ShowNat(id) + ("_v" + ShowNat(version)))
  }

  lemma DigitsThen(x: string, s: string, y: string, t: string)
    requires x + s == y + t && AllDigits(x) && AllDigits(y)
    requires s != "" && !IsDigit(s[0]) && t != "" && !IsDigit(t[0])
    ensures x == y && s == t
  {
    var u := x + s;
    assert u[|x|] == s[0] && u[|y|] == t[0];
    if |x| == |y| {
      assert u[..|x|] == x == y && u[|x|..] == s == t;
    } else {
      assert false;
    }
  }

  /** Different windows and different versions have different names. */
  lemma ShmNameInjective(id: nat, v: nat, id': nat, v': nat)
    requires ShmName(id, v) == ShmName(id', v')
    ensures id == id' && v == v'
  {
    var a, b := ShowNat(id) + ("_v" + ShowNat(v)), ShowNat(id') + ("_v" + ShowNat(v'));
    assert a == ShmName(id, v)[5..] && b == ShmName(id', v')[5..];
    DigitsThen(ShowNat(id), "_v" + ShowNat(v), ShowNat(id'), "_v" + ShowNat(v'));
    assert ShowNat(v) == ("_v" + ShowNat(v))[2..] && ShowNat(v') == ("_v" + ShowNat(v'))[2..];
    ValueOfShow(id);
    ValueOfShow(id');
    ValueOfShow(v);
    ValueOfShow(v');
  }
}
