/** The static catalog: the eight products, the enum value lists the
    sidebar iterates over, and the de-duplicated colour list. */
module Catalog {
  import opened Types
  import opened Seqs

  /** `PRODUCTS`, in catalog order. Prices are in centavos (R$ 289,90 is
      28990). No product sets `type` or `fileSize`. */
  const Products: seq<Product> := [
    Product("1", "Máscara Cyber Oni", Cosplay, Pla, Grande, Alto,
            ["Preto", "Neon", "Vermelho"], true, 28990, Some(24990), None),
    Product("2", "Vaso Voronoi Twisted", Decor, Pla, Media, Medio,
            ["Branco", "Seda", "Azul", "Amarelo"], false, 8990, Some(6990), None),
    Product("3", "Braço Robótico", Pecas, Abs, Grande, Alto,
            ["Cinza", "Laranja", "Amarelo"], true, 45000, Some(38990), None),
    Product("4", "Dragão Articulado", Arte, Pla, Media, Alto,
            ["Gradiente", "Dourado", "Roxo"], true, 12990, Some(9990), None),
    Product("5", "Suporte Headset", Utilidades, Pla, Media, Baixo,
            ["Preto", "Branco", "Amarelo"], false, 7990, None, None),
    Product("6", "Engrenagem Planetária", Pecas, Resina, Pequena, Alto,
            ["Cinza Transparente"], false, 4500, None, None),
    Product("7", "Busto Cyberpunk", Arte, Resina, Pequena, Alto,
            ["Cinza Primer", "Gradiente"], true, 15990, Some(13990), None),
    Product("8", "Organizador Modular", Utilidades, Petg, Media, Baixo,
            ["Azul", "Preto", "Amarelo"], false, 3990, None, None)
  ]

  /** `Object.values(Category)`: every category in declaration order,
      `All` included. */
  const Categories: seq<Category> := [All, Arte, Decor, Cosplay, Pecas, Utilidades, Miniatures]
  const Materials: seq<Material> := [Pla, Abs, Resina, Petg]
  const Scales: seq<Scale> := [Pequena, Media, Grande]
  const DetailLevels: seq<DetailLevel> := [Baixo, Medio, Alto]

  /** Each value list names every value of its enum exactly once. */
  lemma EnumListsComplete()
    ensures forall c: Category :: c in Categories
    ensures NoDuplicates(Categories)
    ensures forall m: Material :: m in Materials
    ensures NoDuplicates(Materials)
    ensures forall s: Scale :: s in Scales
    ensures NoDuplicates(Scales)
    ensures forall d: DetailLevel :: d in DetailLevels
    ensures NoDuplicates(DetailLevels)
  {
    forall c: Category ensures c in Categories {
      match c
      case All => assert Categories[0] == c;
      case Arte => assert Categories[1] == c;
      case Decor => assert Categories[2] == c;
      case Cosplay => assert Categories[3] == c;
      case Pecas => assert Categories[4] == c;
      case Utilidades => assert Categories[5] == c;
      case Miniatures => assert Categories[6] == c;
    }
    forall m: Material ensures m in Materials {
      match m
      case Pla => assert Materials[0] == m;
      case Abs => assert Materials[1] == m;
      case Resina => assert Materials[2] == m;
      case Petg => assert Materials[3] == m;
    }
    forall s: Scale ensures s in Scales {
      match s
      case Pequena => assert Scales[0] == s;
      case Media => assert Scales[1] == s;
      case Grande => assert Scales[2] == s;
    }
    forall d: DetailLevel ensures d in DetailLevels {
      match d
      case Baixo => assert DetailLevels[0] == d;
      case Medio => assert DetailLevels[1] == d;
      case Alto => assert DetailLevels[2] == d;
    }
  }

  /** `PRODUCTS.flatMap(p => p.colors)`. */
  function ColorsOf(products: seq<Product>): (r: seq<string>)
    ensures forall c :: c in r <==> exists i :: 0 <= i < |products| && c in products[i].colors
  {
    if |products| == 0 then []
    else
      var rest := ColorsOf(products[1..]);
      assert forall i :: 0 < i < |products| ==> products[i] == products[1..][i - 1];
      products[0].colors + rest
  }

  /** `ALL_COLORS = Array.from(new Set(PRODUCTS.flatMap(p => p.colors)))`:
      every colour some product offers, once each, in order of first
      appearance in the catalog. */
  function AllColorsOf(products: seq<Product>): (r: seq<string>)
    ensures NoDuplicates(r)
    ensures forall c :: c in r <==> c in ColorsOf(products)
    ensures forall c :: c in r <==> exists i :: 0 <= i < |products| && c in products[i].colors
    ensures forall i, j :: 0 <= i < j < |r| ==>
              FirstIndex(ColorsOf(products), r[i]) < FirstIndex(ColorsOf(products), r[j])
  {
    DistinctFirstOccurrenceOrder(ColorsOf(products));
    Distinct(ColorsOf(products))
  }

  /** Product ids are pairwise distinct. */
  lemma ProductIdsDistinct()
    ensures forall i, j :: 0 <= i < j < |Products| ==> Products[i].id != Products[j].id
  {
  }

  /** A promotional price, where present, is strictly below the list price. */
  lemma PromotionalPriceBelowPrice()
    ensures forall p :: p in Products && p.promotionalPrice.Some? ==>
              p.promotionalPrice.value < p.price
  {
  }

  /** No product is filed under `'Todas'`. */
  lemma NoProductInAll()
    ensures forall p :: p in Products ==> p.category != All
  {
  }
}
