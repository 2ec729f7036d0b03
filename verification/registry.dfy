/** A best-match registry (`QueryComponentManager` and
    `ResourceComponentManager`): resolvers are registered in order; asked
    about an input, every resolver may offer a renderer with a confidence,
    and the offer with the highest confidence wins. The choice is a left
    fold over the offers in registration order that replaces the champion
    only on a strictly greater confidence, so ties go to the earliest. With
    no offer at all the fold has no initial value and throws. */
module Registry {
  import opened Wrappers

  /** What a resolver answers for an input: nothing (a falsy result), or a
      renderer and its confidence. */
  type Resolver<!I, R> = I -> Option<(R, int)>

  datatype RegistryError = NoMatch

  /** `registerComponent`: the new resolver goes last. */
  function Register<I, R>(reg: seq<Resolver<I, R>>, c: Resolver<I, R>): (r: seq<Resolver<I, R>>)
    ensures |r| == |reg| + 1 && r[..|reg|] == reg && r[|reg|] == c
  {
    reg + [c]
  }

  /** The offers for `x`, in registration order, with falsy answers dropped. */
  function Offers<I, R(!new)>(reg: seq<Resolver<I, R>>, x: I): (ms: seq<(R, int)>)
    ensures |ms| <= |reg|
    ensures forall m :: m in ms <==> exists j :: 0 <= j < |reg| && reg[j](x) == Some(m)
  {
    if |reg| == 0 then []
    else
      var init := reg[..|reg| - 1];
      var rest := Offers(init, x);
      assert forall j :: 0 <= j < |init| ==> init[j] == reg[j];
      assert forall m :: (exists j :: 0 <= j < |reg| && reg[j](x) == Some(m)) <==>
        (exists j :: 0 <= j < |init| && init[j](x) == Some(m)) || reg[|reg| - 1](x) == Some(m) by {
        forall m | exists j :: 0 <= j < |reg| && reg[j](x) == Some(m)
          ensures (exists j :: 0 <= j < |init| && init[j](x) == Some(m)) || reg[|reg| - 1](x) == Some(m)
        {
          var j :| 0 <= j < |reg| && reg[j](x) == Some(m);
          if j < |init| { assert init[j](x) == Some(m); }
        }
      }
      match reg[|reg| - 1](x)
      case None => rest
      case Some(m) => rest + [m]
  }

  /** The position the fold ends on: the champion so far, replaced by a
      later offer only when that one is strictly more confident. */
  function Champion<R>(ms: seq<(R, int)>): (b: nat)
    requires |ms| > 0
    ensures b < |ms|
    ensures forall j :: 0 <= j < |ms| ==> ms[j].1 <= ms[b].1
    ensures forall j :: 0 <= j < b ==> ms[j].1 < ms[b].1
  {
    if |ms| == 1 then 0
    else
      var b := Champion(ms[..|ms| - 1]);
      assert forall j :: 0 <= j < |ms| - 1 ==> ms[..|ms| - 1][j] == ms[j];
      if ms[|ms| - 1].1 > ms[b].1 then |ms| - 1 else b
  }

  /** Only one position is both maximal and ahead of every equal offer, so
      the fold's answer is determined by that description alone. */
  lemma ChampionUnique<R>(ms: seq<(R, int)>, k: nat)
    requires k < |ms|
    requires forall j :: 0 <= j < |ms| ==> ms[j].1 <= ms[k].1
    requires forall j :: 0 <= j < k ==> ms[j].1 < ms[k].1
    ensures Champion(ms) == k
  {
  }

  /** The winning offer, or `NoMatch` when there is none. */
  function Choose<I, R(!new)>(reg: seq<Resolver<I, R>>, x: I): (r: Result<(R, int), RegistryError>)
    ensures r.Err? <==> forall j :: 0 <= j < |reg| ==> reg[j](x).None?
    ensures r.Ok? ==> exists j :: 0 <= j < |reg| && reg[j](x) == Some(r.value)
    ensures r.Ok? ==> forall j :: 0 <= j < |reg| && reg[j](x).Some? ==> reg[j](x).value.1 <= r.value.1
  {
    var ms := Offers(reg, x);
    assert forall j :: 0 <= j < |reg| && reg[j](x).Some? ==> reg[j](x).value in ms;
    if |ms| == 0 then
      Err(NoMatch)
    else
      var b := Champion(ms);
      assert ms[b] in ms;
      assert forall j :: 0 <= j < |reg| && reg[j](x).Some? ==> reg[j](x).value.1 <= ms[b].1 by {
        forall j | 0 <= j < |reg| && reg[j](x).Some?
          ensures reg[j](x).value.1 <= ms[b].1
        {
          var m := reg[j](x).value;
          assert m in ms;
          var i :| 0 <= i < |ms| && ms[i] == m;
        }
      }
      Ok(ms[b])
  }

  /** `getComponent(x)`: the renderer of the winning offer. */
  function GetComponent<I, R(!new)>(reg: seq<Resolver<I, R>>, x: I): (r: Result<R, RegistryError>)
    ensures r.Err? <==> forall j :: 0 <= j < |reg| ==> reg[j](x).None?
    ensures r.Ok? ==> r.value == Choose(reg, x).value.0
  {
    match Choose(reg, x)
    case Err(e) => Err(e)
    case Ok(m) => Ok(m.0)
  }

  /** Registering one more resolver: it wins exactly when it offers
      something strictly more confident than the previous winner, or when
      nothing matched before. */
  lemma ChooseRegister<I, R(!new)>(reg: seq<Resolver<I, R>>, c: Resolver<I, R>, x: I)
    ensures Choose(Register(reg, c), x) ==
      match c(x)
      case None => Choose(reg, x)
      case Some(m) =>
        if Choose(reg, x).Err? || m.1 > Choose(reg, x).value.1 then Ok(m) else Choose(reg, x)
  {
    OffersRegister(reg, c, x);
    var ms := Offers(reg, x);
    if c(x).Some? && |ms| > 0 {
      var ms' := ms + [c(x).value];
      assert ms'[..|ms'| - 1] == ms;
    }
  }

  /** A resolver registered last adds its offer, if any, at the end. */
  lemma OffersRegister<I, R(!new)>(reg: seq<Resolver<I, R>>, c: Resolver<I, R>, x: I)
    ensures Offers(Register(reg, c), x) == if c(x).Some? then Offers(reg, x) + [c(x).value] else Offers(reg, x)
  {
    assert Register(reg, c)[..|reg|] == reg;
  }

  /** An offer wins when every earlier offer is strictly less confident and
      no later one is more confident. */
  lemma {:induction false} Winner<I, R(!new)>(reg: seq<Resolver<I, R>>, x: I, k: nat)
    requires k < |reg| && reg[k](x).Some?
    requires forall j :: 0 <= j < k && reg[j](x).Some? ==> reg[j](x).value.1 < reg[k](x).value.1
    requires forall j :: k < j < |reg| && reg[j](x).Some? ==> reg[j](x).value.1 <= reg[k](x).value.1
    ensures Choose(reg, x) == Ok(reg[k](x).value)
    decreases |reg|
  {
    var pre := reg[..|reg| - 1];
    var c := reg[|reg| - 1];
    assert reg == Register(pre, c);
    ChooseRegister(pre, c, x);
    if k == |reg| - 1 {
      if Choose(pre, x).Ok? {
        var j :| 0 <= j < |pre| && pre[j](x) == Some(Choose(pre, x).value);
        assert reg[j] == pre[j];
      }
    } else {
      assert forall j :: 0 <= j < |pre| ==> pre[j] == reg[j];
      Winner(pre, x, k);
    }
  }

  /** With a single offer, that offer wins whatever its confidence. */
  lemma SingleOffer<I, R(!new)>(reg: seq<Resolver<I, R>>, x: I, k: nat)
    requires k < |reg| && reg[k](x).Some?
    requires forall j :: 0 <= j < |reg| && j != k ==> reg[j](x).None?
    ensures GetComponent(reg, x) == Ok(reg[k](x).value.0)
  {
    var ms := Offers(reg, x);
    assert reg[k](x).value in ms;
    forall m | m in ms
      ensures m == reg[k](x).value
    {
      var j :| 0 <= j < |reg| && reg[j](x) == Some(m);
    }
  }

  /** The two registries of the application: query field inputs and
      resource displayers. They are separate lists. */
  datatype Registries<!F, W, !V, D> = Registries(query: seq<Resolver<F, W>>, resources: seq<Resolver<V, D>>)

  function RegisterQueryComponent<F, W, V, D>(rs: Registries<F, W, V, D>, c: Resolver<F, W>): (r: Registries<F, W, V, D>)
    ensures r.resources == rs.resources
    ensures r.query == Register(rs.query, c)
  {
    rs.(query := Register(rs.query, c))
  }

  function RegisterResourceComponent<F, W, V, D>(rs: Registries<F, W, V, D>, c: Resolver<V, D>): (r: Registries<F, W, V, D>)
    ensures r.query == rs.query
    ensures r.resources == Register(rs.resources, c)
  {
    rs.(resources := Register(rs.resources, c))
  }

  /** Registering a query input never changes which displayer a resource
      gets, and the other way round. */
  lemma RegistriesIndependent<F, W(!new), V, D(!new)>(rs: Registries<F, W, V, D>, cq: Resolver<F, W>, cr: Resolver<V, D>, f: F, v: V)
    ensures GetComponent(RegisterQueryComponent(rs, cq).resources, v) == GetComponent(rs.resources, v)
    ensures GetComponent(RegisterResourceComponent(rs, cr).query, f) == GetComponent(rs.query, f)
  {
  }
}
