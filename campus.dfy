/**
  The hand-curated adjacency graph of the campus points of interest
  (App.js:94-157): walking distances in metres between neighbouring places,
  the graph the shortest-path engine is run over.

  The graph's keys are the eleven place names. They are written here as
  the constructors of `Place`; `Name` gives the string each one stands for.
 */
module Campus {
  import opened Graphs

  datatype Place =
    | AdminDepartment
    | KGPlayArea
    | BasketballCourtA
    | FootballField
    | BasketballCourtB
    | Canteen
    | BookStore
    | Library
    | TennisCourt
    | SwimmingPool
    | Auditorium

  /** The string key under which a place appears in the literal. */
  function Name(p: Place): (s: string)
    ensures |s| > 0
  {
    match p
    case AdminDepartment => "Admin Department"
    case KGPlayArea => "KG Play area"
    case BasketballCourtA => "Basketball Court A"
    case FootballField => "Football Field"
    case BasketballCourtB => "Basketball Court B"
    case Canteen => "Canteen"
    case BookStore => "Book Store"
    case Library => "Library"
    case TennisCourt => "Tennis Court"
    case SwimmingPool => "Swimming Pool"
    case Auditorium => "Auditorium"
  }

  /** The curated campus graph, row by row as the literal lists it. */
  function CampusGraph(): (g: Graph<Place>)
    ensures g.Keys == {AdminDepartment, KGPlayArea, BasketballCourtA, FootballField, BasketballCourtB,
                       Canteen, BookStore, Library, TennisCourt, SwimmingPool, Auditorium}
  {
    map[
      AdminDepartment := map[
        KGPlayArea := 50.529032297952135,
        BasketballCourtA := 26.203050151953796,
        FootballField := 106.02017012389383
      ],
      KGPlayArea := map[
        AdminDepartment := 50.529032297952135,
        TennisCourt := 74.95151523947659
      ],
      BasketballCourtA := map[
        AdminDepartment := 26.203050151953796,
        Auditorium := 28.48585204588383
      ],
      FootballField := map[
        AdminDepartment := 106.02017012389383,
        BasketballCourtB := 38.48489221475062,
        SwimmingPool := 45.16772602358839
      ],
      BasketballCourtB := map[
        FootballField := 38.48489221475062,
        Library := 30.160316360671107,
        SwimmingPool := 16.523553609564864
      ],
      Canteen := map[
        BookStore := 50.95116073683099,
        Library := 54.682941601110215,
        TennisCourt := 21.523084398669692,
        Auditorium := 36.97256944708198
      ],
      BookStore := map[
        Canteen := 50.95116073683099,
        Library := 25.428145968573155,
        TennisCourt := 71.13648183727625,
        Auditorium := 41.15120118764267
      ],
      Library := map[
        BasketballCourtB := 30.160316360671107,
        Canteen := 54.682941601110215,
        BookStore := 25.428145968573155,
        TennisCourt := 70.08178518071178,
        SwimmingPool := 28.301801163107402,
        Auditorium := 26.537535307816402
      ],
      TennisCourt := map[
        KGPlayArea := 74.95151523947659,
        Canteen := 21.523084398669692,
        BookStore := 71.13648183727625,
        Library := 70.08178518071178,
        Auditorium := 46.744181258578436
      ],
      SwimmingPool := map[
        FootballField := 45.16772602358839,
        BasketballCourtB := 16.523553609564864,
        Library := 28.301801163107402
      ],
      Auditorium := map[
        BasketballCourtA := 28.48585204588383,
        Canteen := 36.97256944708198,
        BookStore := 41.15120118764267,
        Library := 26.537535307816402,
        TennisCourt := 46.744181258578436
      ]
    ]
  }

  lemma AdminDepartmentRow()
    ensures RowWellFormed(CampusGraph(), AdminDepartment)
  {
  }

  lemma KGPlayAreaRow()
    ensures RowWellFormed(CampusGraph(), KGPlayArea)
  {
  }

  lemma BasketballCourtARow()
    ensures RowWellFormed(CampusGraph(), BasketballCourtA)
  {
  }

  lemma FootballFieldRow()
    ensures RowWellFormed(CampusGraph(), FootballField)
  {
  }

  lemma BasketballCourtBRow()
    ensures RowWellFormed(CampusGraph(), BasketballCourtB)
  {
  }

  lemma CanteenRow()
    ensures RowWellFormed(CampusGraph(), Canteen)
  {
  }

  lemma BookStoreRow()
    ensures RowWellFormed(CampusGraph(), BookStore)
  {
  }

  lemma LibraryRow()
    ensures RowWellFormed(CampusGraph(), Library)
  {
  }

  lemma TennisCourtRow()
    ensures RowWellFormed(CampusGraph(), TennisCourt)
  {
  }

  lemma SwimmingPoolRow()
    ensures RowWellFormed(CampusGraph(), SwimmingPool)
  {
  }

  lemma AuditoriumRow()
    ensures RowWellFormed(CampusGraph(), Auditorium)
  {
  }

  /** Every row of the curated graph is well formed (see RowWellFormed). */
  lemma CampusRowsWellFormed()
    ensures forall u :: u in CampusGraph() ==> RowWellFormed(CampusGraph(), u)
  {
    forall u | u in CampusGraph() ensures RowWellFormed(CampusGraph(), u) {
      match u
      case AdminDepartment => AdminDepartmentRow();
      case KGPlayArea => KGPlayAreaRow();
      case BasketballCourtA => BasketballCourtARow();
      case FootballField => FootballFieldRow();
      case BasketballCourtB => BasketballCourtBRow();
      case Canteen => CanteenRow();
      case BookStore => BookStoreRow();
      case Library => LibraryRow();
      case TennisCourt => TennisCourtRow();
      case SwimmingPool => SwimmingPoolRow();
      case Auditorium => AuditoriumRow();
    }
  }

  /**
    The curated graph is symmetric (each edge A -> B is matched by B -> A
    with exactly the same weight), has no self-loops, refers only to its
    own keys and has no negative weight.
   */
  lemma CampusWellFormed()
    ensures Symmetric(CampusGraph())
    ensures NoSelfLoops(CampusGraph())
    ensures Closed(CampusGraph())
    ensures NonNegative(CampusGraph())
  {
    CampusRowsWellFormed();
    RowsMakeGraph(CampusGraph());
  }

  /** Different places have different names, so the places stand for the string keys one to one. */
  lemma NamesDistinct()
    ensures forall a: Place, b: Place :: Name(a) == Name(b) ==> a == b
  {
    forall a: Place, b: Place | a != b ensures Name(a) != Name(b) {
      assert |Name(a)| != |Name(b)| || Name(a)[0] != Name(b)[0] || Name(a)[1] != Name(b)[1] || Name(a)[|Name(a)| - 1] != Name(b)[|Name(b)| - 1];
    }
  }

  /** Every one of the eleven places is a node of the curated graph. */
  lemma EveryPlaceIsNode()
    ensures forall p: Place :: p in CampusGraph()
  {
    forall p: Place ensures p in CampusGraph() {
      match p
      case AdminDepartment =>
      case KGPlayArea =>
      case BasketballCourtA =>
      case FootballField =>
      case BasketballCourtB =>
      case Canteen =>
      case BookStore =>
      case Library =>
      case TennisCourt =>
      case SwimmingPool =>
      case Auditorium =>
    }
  }

  /** A walk from the Library to each place, along edges of the curated graph. */
  function FromLibrary(p: Place): (r: seq<Place>)
    ensures PathFromTo(CampusGraph(), r, Library, p)
  {
    match p
    case Library => [Library]
    case BasketballCourtB => [Library, BasketballCourtB]
    case Canteen => [Library, Canteen]
    case BookStore => [Library, BookStore]
    case TennisCourt => [Library, TennisCourt]
    case SwimmingPool => [Library, SwimmingPool]
    case Auditorium => [Library, Auditorium]
    case FootballField => [Library, BasketballCourtB, FootballField]
    case BasketballCourtA => [Library, Auditorium, BasketballCourtA]
    case KGPlayArea => [Library, TennisCourt, KGPlayArea]
    case AdminDepartment => [Library, Auditorium, BasketballCourtA, AdminDepartment]
  }

  /**
    The curated graph is connected: every place reaches every other, so
    a search between any two places of the campus always finds a route.
   */
  function Route(a: Place, b: Place): (r: seq<Place>)
    ensures PathFromTo(CampusGraph(), r, a, b)
  {
    CampusWellFormed();
    ReversePath(CampusGraph(), FromLibrary(a));
    JoinPaths(CampusGraph(), Reversed(FromLibrary(a)), FromLibrary(b));
    Reversed(FromLibrary(a)) + FromLibrary(b)[1..]
  }
}
