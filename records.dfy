/** The product record the scraper builds, stores and reloads: one row of
    every CSV file it writes (columns name, price, size, unit_price,
    category, has_price, promotion). */
module Records {
  import opened Common

  /** `price` is absent only for rows reloaded from a file whose cell was
      empty; a freshly extracted product always carries one. */
  datatype Product = Product(
    name: string,
    price: Option<real>,
    size: string,
    unitPrice: Option<real>,
    category: string,
    hasPrice: bool,
    promotion: Option<string>)

  /** The names occurring in a list of products. */
  function Names(ps: seq<Product>): set<string> {
    set k | 0 <= k < |ps| :: ps[k].name
  }

  /** No two products of the list share a name. */
  predicate NamesDistinct(ps: seq<Product>) {
    forall a, b :: 0 <= a < b < |ps| ==> ps[a].name != ps[b].name
  }

  lemma NamesOne(p: Product)
    ensures Names([p]) == {p.name}
  {
    assert [p][0] == p;
  }

  lemma NamesAppend(xs: seq<Product>, ys: seq<Product>)
    ensures Names(xs + ys) == Names(xs) + Names(ys)
  {
    var zs := xs + ys;
    forall n | n in Names(zs) ensures n in Names(xs) + Names(ys) {
      var k :| 0 <= k < |zs| && zs[k].name == n;
      if k >= |xs| { assert ys[k - |xs|] == zs[k]; }
    }
    forall n | n in Names(ys) ensures n in Names(zs) {
      var k :| 0 <= k < |ys| && ys[k].name == n;
      assert zs[|xs| + k] == ys[k];
    }
    forall n | n in Names(xs) ensures n in Names(zs) {
      var k :| 0 <= k < |xs| && xs[k].name == n;
      assert zs[k] == xs[k];
    }
  }
}
