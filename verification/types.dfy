/** The storefront's enumerations and records.

    Each string enum becomes a datatype whose `Label` is the enum's string
    value; because the labels are pairwise distinct, comparing two values
    as strings (what the storefront does) is the same as comparing them as
    datatype values (what this model does). */
module Types {

  datatype Option<T> = None | Some(value: T)

  /** `Category`; `All` carries the value `'Todas'`, which is also the
      "no category selected" sentinel of the filter state. */
  datatype Category = All | Arte | Decor | Cosplay | Pecas | Utilidades | Miniatures {
    function Label(): string {
      match this
      case All => "Todas"
      case Arte => "Arte"
      case Decor => "Decoração"
      case Cosplay => "Cosplay"
      case Pecas => "Peças"
      case Utilidades => "Utilidades"
      case Miniatures => "Miniaturas"
    }
  }

  datatype Material = Pla | Abs | Resina | Petg {
    function Label(): string {
      match this
      case Pla => "PLA"
      case Abs => "ABS"
      case Resina => "Resina"
      case Petg => "PETG"
    }
  }

  datatype Scale = Pequena | Media | Grande {
    function Label(): string {
      match this
      case Pequena => "Pequena"
      case Media => "Média"
      case Grande => "Grande"
    }
  }

  datatype DetailLevel = Baixo | Medio | Alto {
    function Label(): string {
      match this
      case Baixo => "Baixo"
      case Medio => "Médio"
      case Alto => "Alto"
    }
  }

  datatype ProductType = Physical | Digital {
    function Label(): string {
      match this
      case Physical => "Físico"
      case Digital => "Arquivo STL"
    }
  }

  /** Within each enum the string values are pairwise distinct. */
  lemma LabelsDistinct()
    ensures forall a: Category, b: Category :: a.Label() == b.Label() ==> a == b
    ensures forall a: Material, b: Material :: a.Label() == b.Label() ==> a == b
    ensures forall a: Scale, b: Scale :: a.Label() == b.Label() ==> a == b
    ensures forall a: DetailLevel, b: DetailLevel :: a.Label() == b.Label() ==> a == b
    ensures forall a: ProductType, b: ProductType :: a.Label() == b.Label() ==> a == b
  {
  }

  /** The filter's `'Todas'` sentinel is itself a category value. */
  lemma AllIsTheSentinel()
    ensures Category.All.Label() == "Todas"
    ensures forall c: Category :: c.Label() == "Todas" <==> c == All
  {
  }

  /** A catalog product, restricted to the fields the storefront's logic
      reads. One category, material, scale and detail level each; colours
      are free-form strings. Prices are in centavos. `isNew` absent reads as
      false, as `undefined` does in a JavaScript test. */
  datatype Product = Product(
    id: string,
    name: string,
    category: Category,
    material: Material,
    scale: Scale,
    detailLevel: DetailLevel,
    colors: seq<string>,
    isNew: bool,
    price: nat,
    promotionalPrice: Option<nat>,
    productType: Option<ProductType>)

  /** The sidebar's selection. The multi-select lists range over their enums,
      except `colors`, which holds arbitrary strings. `types` is declared but
      never filled in by the storefront, so at run time it is absent. */
  datatype FilterState = FilterState(
    category: Category,
    materials: seq<Material>,
    scales: seq<Scale>,
    detailLevel: seq<DetailLevel>,
    colors: seq<string>,
    searchTerm: string,
    types: Option<seq<ProductType>>)
}
