/** The xml-id registry: lookup of the `(module, name)` id of a remote
    record, first in the ids generated during this session and then in the
    record store, and generation of fresh ids `model_seed_rN` with the least
    `N` whose name is not already taken. */
module XmlIdMgr {

  import opened Base
  import opened Text
  import opened Common
  import opened OoopUtils

  const XMLID_MAXSIZE: int := 128

  /** A `(module, name)` id as the registry stores it. */
  datatype Pair = Pair(mod: string, name: string)

  /** Session key `(res_id, model)`. */
  datatype Key = Key(resId: int, model: string)

  /** The record store, as an oracle: the id it has for a record, and the
      names it has under a module for a model. */
  datatype Store = Store(
    getXmlId: (string, int) -> Option<Pair>,
    names: (string, string) -> seq<string>)

  /** Session ids, and the ids declared by the loaded data files. */
  datatype Registry = Registry(session: map<Key, Pair>, fileIds: seq<XmlId>)

  /** Members of the set of names a candidate is checked against. The file
      ids enter it as `(module, name)` tuples while candidates are bare
      strings, so a tuple never equals a candidate. */
  datatype Token = Bare(s: string) | Tup(id: XmlId)

  /** `lookup`: the session first, the store only on a miss. */
  function Lookup(reg: Registry, store: Store, model: string, resId: int): (r: Option<Pair>)
    ensures Key(resId, model) in reg.session ==> r == Some(reg.session[Key(resId, model)])
    ensures Key(resId, model) !in reg.session ==> r == store.getXmlId(model, resId)
  {
    if Key(resId, model) in reg.session then Some(reg.session[Key(resId, model)])
    else store.getXmlId(model, resId)
  }

  /** The names a generated name must avoid. */
  function Forbidden(reg: Registry, store: Store, modName: string, model: string): (r: set<Token>)
    ensures forall k :: k in reg.session && reg.session[k].mod == modName ==> Bare(reg.session[k].name) in r
    ensures forall n :: n in store.names(modName, model) ==> Bare(n) in r
    ensures forall t :: Bare(t) in r ==>
              (exists k :: k in reg.session && reg.session[k] == Pair(modName, t)) || t in store.names(modName, model)
  {
    (set k | k in reg.session && reg.session[k].mod == modName :: Bare(reg.session[k].name))
    + (set n | n in store.names(modName, model) :: Bare(n))
    + (set t | t in reg.fileIds :: Tup(t))
  }

  /** `model_seed_r` for a model and a seed: both normalised, the seed cut so
      that the name fits 128 characters with a suffix of up to 7 digits. */
  function NamePrefix(model: string, seed: string): string
  {
    var modelN := NormalizeXmlName(model, None);
    var seedN := NormalizeXmlName(seed, Some(XMLID_MAXSIZE - 10 - |modelN|));
    modelN + "_" + seedN + "_r"
  }

  function Candidate(prefix: string, i: nat): string
  {
    prefix + NatToString(i)
  }

  lemma CandidateInjective(prefix: string, a: nat, b: nat)
    requires Candidate(prefix, a) == Candidate(prefix, b)
    ensures a == b
  {
    assert Candidate(prefix, a)[|prefix|..] == NatToString(a);
    assert Candidate(prefix, b)[|prefix|..] == NatToString(b);
    NatToStringInjective(a, b);
  }

  /** The first `n` candidates, as tokens. */
  function CandidateSet(prefix: string, n: nat): set<Token>
  {
    set j | 0 <= j < n :: Bare(Candidate(prefix, j))
  }

  /** Distinct indices give distinct candidates, so there are `n` of them. */
  lemma CandidateSetCard(prefix: string, n: nat)
    ensures |CandidateSet(prefix, n)| == n
  {
    var f := (j: nat) => Bare(Candidate(prefix, j));
    forall a: nat, b: nat | f(a) == f(b) ensures a == b
    {
      CandidateInjective(prefix, a, b);
    }
    InjectiveImageCard(f, n);
    forall t | t in CandidateSet(prefix, n) ensures t in set j | 0 <= j < n :: f(j)
    {
      var j :| 0 <= j < n && t == Bare(Candidate(prefix, j));
      assert t == f(j);
    }
    assert CandidateSet(prefix, n) == set j | 0 <= j < n :: f(j);
  }

  /** An injective map sends the first `n` indices to `n` values. */
  lemma {:induction false} InjectiveImageCard<T>(f: nat -> T, n: nat)
    requires forall a: nat, b: nat :: f(a) == f(b) ==> a == b
    ensures |set j | 0 <= j < n :: f(j)| == n
    decreases n
  {
    if n > 0 {
      InjectiveImageCard(f, n - 1);
      var s := set j | 0 <= j < n - 1 :: f(j);
      assert (set j | 0 <= j < n :: f(j)) == s + {f(n - 1)};
      assert f(n - 1) !in s;
    }
  }

  /** The least index from `i` on whose candidate is not forbidden; every
      index below it is forbidden, so it never exceeds the forbidden count. */
  function FirstFree(prefix: string, forbidden: set<Token>, i: nat): (r: nat)
    requires forall j :: 0 <= j < i ==> Bare(Candidate(prefix, j)) in forbidden
    ensures i <= r <= |forbidden|
    ensures Bare(Candidate(prefix, r)) !in forbidden
    ensures forall j :: 0 <= j < r ==> Bare(Candidate(prefix, j)) in forbidden
    decreases |forbidden| - i
  {
    CountBelow(prefix, forbidden, i);
    if Bare(Candidate(prefix, i)) !in forbidden then i
    else
      CountBelow(prefix, forbidden, i + 1);
      FirstFree(prefix, forbidden, i + 1)
  }

  lemma CountBelow(prefix: string, forbidden: set<Token>, n: nat)
    requires forall j :: 0 <= j < n ==> Bare(Candidate(prefix, j)) in forbidden
    ensures n <= |forbidden|
  {
    var s := CandidateSet(prefix, n);
    assert s <= forbidden;
    CandidateSetCard(prefix, n);
    SubsetCard(s, forbidden);
  }

  lemma SubsetCard<T>(a: set<T>, b: set<T>)
    requires a <= b
    ensures |a| <= |b|
  {
    assert b == a + (b - a);
  }

  /** `create`: an id already known is returned unchanged and nothing is
      recorded; otherwise the least free candidate is generated, recorded in
      the session under `(res_id, model)`, and returned. */
  function Create(reg: Registry, store: Store, modName: string, model: string, resId: int, seed: string)
    : (r: (Registry, Pair))
    ensures Lookup(reg, store, model, resId).Some? ==>
              r == (reg, Lookup(reg, store, model, resId).value)
    ensures Lookup(reg, store, model, resId).None? ==>
              var F := Forbidden(reg, store, modName, model);
              var p := NamePrefix(model, seed);
              && r.1.mod == modName
              && Bare(r.1.name) !in F
              && (exists i: nat :: r.1.name == Candidate(p, i) && i <= |F|
                    && forall j :: 0 <= j < i ==> Bare(Candidate(p, j)) in F)
              && r.0 == reg.(session := reg.session[Key(resId, model) := r.1])
  {
    match Lookup(reg, store, model, resId)
    case Some(found) => (reg, found)
    case None =>
      var F := Forbidden(reg, store, modName, model);
      var p := NamePrefix(model, seed);
      var i := FirstFree(p, F, 0);
      var id := Pair(modName, Candidate(p, i));
      (reg.(session := reg.session[Key(resId, model) := id]), id)
  }

  /** After `create`, `lookup` finds the created id, and a second `create`
      for the same record returns it and records nothing. */
  lemma CreateThenLookup(reg: Registry, store: Store, modName: string, model: string, resId: int,
                         seed: string, seed2: string, modName2: string)
    ensures var (reg1, id) := Create(reg, store, modName, model, resId, seed);
            && Lookup(reg1, store, model, resId) == Some(id)
            && Create(reg1, store, modName2, model, resId, seed2) == (reg1, id)
  {
  }

  /** The registry invariant: within one module, session names are pairwise
      distinct. */
  ghost predicate UniqueInModule(session: map<Key, Pair>)
  {
    forall k1, k2 :: k1 in session && k2 in session && k1 != k2 && session[k1].mod == session[k2].mod
      ==> session[k1].name != session[k2].name
  }

  /** `create` preserves the invariant. */
  lemma CreatePreservesUniqueness(reg: Registry, store: Store, modName: string, model: string,
                                  resId: int, seed: string)
    requires UniqueInModule(reg.session)
    ensures UniqueInModule(Create(reg, store, modName, model, resId, seed).0.session)
  {
    var (reg1, id) := Create(reg, store, modName, model, resId, seed);
    if Lookup(reg, store, model, resId).None? {
      var F := Forbidden(reg, store, modName, model);
      var s := reg1.session;
      forall k1, k2 | k1 in s && k2 in s && k1 != k2 && s[k1].mod == s[k2].mod
        ensures s[k1].name != s[k2].name
      {
        if k1 == Key(resId, model) {
          assert s[k2] == reg.session[k2];
          assert Bare(reg.session[k2].name) in F;
        } else if k2 == Key(resId, model) {
          assert s[k1] == reg.session[k1];
          assert Bare(reg.session[k1].name) in F;
        }
      }
    }
  }

  /** Two generating creates in one module never yield the same name. */
  lemma TwoCreatesDistinct(reg: Registry, store: Store, modName: string, model1: string, resId1: int,
                           seed1: string, model2: string, resId2: int, seed2: string)
    requires Key(resId1, model1) != Key(resId2, model2)
    requires Lookup(reg, store, model1, resId1).None?
    requires Lookup(Create(reg, store, modName, model1, resId1, seed1).0, store, model2, resId2).None?
    ensures var (reg1, id1) := Create(reg, store, modName, model1, resId1, seed1);
            id1.name != Create(reg1, store, modName, model2, resId2, seed2).1.name
  {
    var (reg1, id1) := Create(reg, store, modName, model1, resId1, seed1);
    assert reg1.session[Key(resId1, model1)] == id1;
    assert Bare(id1.name) in Forbidden(reg1, store, modName, model2);
  }

  /** The ids declared in data files never rule out a generated name: the
      generated id is the same whatever the file ids are. */
  lemma FileIdsNeverBlock(reg: Registry, store: Store, modName: string, model: string, resId: int,
                          seed: string, files: seq<XmlId>)
    ensures Create(reg, store, modName, model, resId, seed).1 ==
            Create(reg.(fileIds := files), store, modName, model, resId, seed).1
  {
    var reg2 := reg.(fileIds := files);
    if Lookup(reg, store, model, resId).None? {
      var F1 := Forbidden(reg, store, modName, model);
      var F2 := Forbidden(reg2, store, modName, model);
      assert forall t :: Bare(t) in F1 <==> Bare(t) in F2;
      var p := NamePrefix(model, seed);
      var i1 := FirstFree(p, F1, 0);
      var i2 := FirstFree(p, F2, 0);
      assert Bare(Candidate(p, i1)) !in F2;
      assert Bare(Candidate(p, i2)) !in F1;
    }
  }

  /** The generated name fits `XMLID_MAXSIZE` when the normalised model name
      leaves room for the seed and fewer than 10^7 names are taken. */
  lemma GeneratedNameLength(reg: Registry, store: Store, modName: string, model: string,
                            resId: int, seed: string)
    requires Lookup(reg, store, model, resId).None?
    requires |NormalizeXmlName(model, None)| <= XMLID_MAXSIZE - 10
    requires |Forbidden(reg, store, modName, model)| < 10000000
    ensures |Create(reg, store, modName, model, resId, seed).1.name| <= XMLID_MAXSIZE
  {
    var F := Forbidden(reg, store, modName, model);
    var p := NamePrefix(model, seed);
    var i := FirstFree(p, F, 0);
    assert Pow10(7) == 10000000;
    NatToStringLength(i, 7, Pow10(7));
  }

  /** `get_xml_id_sort_key`: `None` for a record without id, otherwise the
      natural sort key of its name. */
  function SortKey(reg: Registry, store: Store, model: string, resId: int): (r: Option<seq<KeyPart>>)
    ensures r.None? <==> Lookup(reg, store, model, resId).None?
    ensures r.Some? ==> r.value == NaturalSortKey(Lookup(reg, store, model, resId).value.name)
  {
    match Lookup(reg, store, model, resId)
    case None => None
    case Some(p) => Some(NaturalSortKey(p.name))
  }
}
