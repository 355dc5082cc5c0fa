/**
 * The index-wide data model: the metric enumeration with its discriminants and
 * its lower-case display name, the loaded index record, and the two shapes of
 * search result (one hit per neighbour, and the count-plus-lists record handed
 * to the bindings).
 */
module IndexTypes {
  import opened Bytes

  datatype IndexType = Angular | Euclidean | Manhattan | Hamming | Dot

  /** The `repr(u8)` discriminant of each variant. */
  function Discriminant(t: IndexType): (d: nat)
    ensures d < 5
  {
    match t
    case Angular => 0
    case Euclidean => 1
    case Manhattan => 2
    case Hamming => 3
    case Dot => 4
  }

  /** The `#[repr(u8)]` values the bindings transmute from: Angular 0, Euclidean 1, Manhattan 2, Hamming 3, Dot 4. */
  lemma DiscriminantValues()
    ensures Discriminant(Angular) == 0 && Discriminant(Euclidean) == 1 && Discriminant(Manhattan) == 2
    ensures Discriminant(Hamming) == 3 && Discriminant(Dot) == 4
  {
  }

  /** Distinct variants have distinct discriminants, and every value 0..4 is used. */
  lemma DiscriminantBijective(a: IndexType, b: IndexType, d: nat)
    ensures Discriminant(a) == Discriminant(b) <==> a == b
    ensures d < 5 ==> exists t :: Discriminant(t) == d
  {
    if d < 5 {
      var t := [Angular, Euclidean, Manhattan, Hamming, Dot][d];
      assert Discriminant(t) == d;
    }
  }

  /** The derived `Debug` text of a variant: its name as written. */
  function DebugName(t: IndexType): string
  {
    match t
    case Angular => "Angular"
    case Euclidean => "Euclidean"
    case Manhattan => "Manhattan"
    case Hamming => "Hamming"
    case Dot => "Dot"
  }

  function LowerChar(c: char): char
  {
    if 'A' <= c <= 'Z' then (c as int + 32) as char else c
  }

  /** `to_lowercase` on ASCII text. */
  function ToLower(s: string): (r: string)
    ensures |r| == |s|
    ensures forall i :: 0 <= i < |s| ==> r[i] == LowerChar(s[i])
  {
    if s == [] then [] else [LowerChar(s[0])] + ToLower(s[1..])
  }

  /** `Display`: the lower-cased `Debug` name. */
  function Name(t: IndexType): string
  {
    ToLower(DebugName(t))
  }

  /** ToLower is determined pointwise. */
  lemma ToLowerIs(s: string, r: string)
    requires |r| == |s| && forall i :: 0 <= i < |s| ==> r[i] == LowerChar(s[i])
    ensures ToLower(s) == r
  {
  }

  /** The display names are the lower-case variant names used in index file names. */
  lemma NameValues()
    ensures Name(Angular) == "angular" && Name(Euclidean) == "euclidean"
    ensures Name(Manhattan) == "manhattan" && Name(Hamming) == "hamming" && Name(Dot) == "dot"
  {
    AngularName();
    EuclideanName();
    ManhattanName();
    HammingName();
    DotName();
  }

  lemma AngularName()
    ensures Name(Angular) == "angular"
  {
    var s := "Angular";
    assert LowerChar(s[0]) == 'a';
    assert LowerChar(s[1]) == 'n';
    assert LowerChar(s[2]) == 'g';
    assert LowerChar(s[3]) == 'u';
    assert LowerChar(s[4]) == 'l';
    assert LowerChar(s[5]) == 'a';
    assert LowerChar(s[6]) == 'r';
    ToLowerIs(s, "angular");
  }

  lemma EuclideanName()
    ensures Name(Euclidean) == "euclidean"
  {
    var s := "Euclidean";
    assert LowerChar(s[0]) == 'e';
    assert LowerChar(s[1]) == 'u';
    assert LowerChar(s[2]) == 'c';
    assert LowerChar(s[3]) == 'l';
    assert LowerChar(s[4]) == 'i';
    assert LowerChar(s[5]) == 'd';
    assert LowerChar(s[6]) == 'e';
    assert LowerChar(s[7]) == 'a';
    assert LowerChar(s[8]) == 'n';
    ToLowerIs(s, "euclidean");
  }

  lemma ManhattanName()
    ensures Name(Manhattan) == "manhattan"
  {
    var s := "Manhattan";
    assert LowerChar(s[0]) == 'm';
    assert LowerChar(s[1]) == 'a';
    assert LowerChar(s[2]) == 'n';
    assert LowerChar(s[3]) == 'h';
    assert LowerChar(s[4]) == 'a';
    assert LowerChar(s[5]) == 't';
    assert LowerChar(s[6]) == 't';
    assert LowerChar(s[7]) == 'a';
    assert LowerChar(s[8]) == 'n';
    ToLowerIs(s, "manhattan");
  }

  lemma HammingName()
    ensures Name(Hamming) == "hamming"
  {
    var s := "Hamming";
    assert LowerChar(s[0]) == 'h';
    assert LowerChar(s[1]) == 'a';
    assert LowerChar(s[2]) == 'm';
    assert LowerChar(s[3]) == 'm';
    assert LowerChar(s[4]) == 'i';
    assert LowerChar(s[5]) == 'n';
    assert LowerChar(s[6]) == 'g';
    ToLowerIs(s, "hamming");
  }

  lemma DotName()
    ensures Name(Dot) == "dot"
  {
    var s := "Dot";
    assert LowerChar(s[0]) == 'd';
    assert LowerChar(s[1]) == 'o';
    assert LowerChar(s[2]) == 't';
    ToLowerIs(s, "dot");
  }

  /** Distinct variants display differently. */
  lemma NameInjective(a: IndexType, b: IndexType)
    ensures Name(a) == Name(b) <==> a == b
  {
    NameValues();
  }

  /**
   * A loaded index: the geometry chosen for its metric, the item count
   * (`degree`), the byte offsets of the tree roots and the storage itself.
   */
  datatype AnnoyIndex = AnnoyIndex(
    dimension: nat,
    indexType: IndexType,
    offsetBeforeChildren: nat,
    headerSize: nat,
    minLeafSize: int,
    nodeSize: nat,
    degree: nat,
    roots: seq<nat>,
    storage: seq<byte>)

  /** One hit of a query: an item id and its (possibly omitted) distance. */
  datatype SearchResultItem = SearchResultItem(id: nat, distance: real)

  /** The result record handed to the bindings. */
  datatype SearchResult = SearchResult(
    count: nat,
    isDistanceIncluded: bool,
    idList: seq<nat>,
    distanceList: seq<real>)
  {
    /** What consumers rely on: the first `count` ids exist, and so do the distances when included. */
    predicate Valid()
    {
      count <= |idList| && (isDistanceIncluded ==> count <= |distanceList|)
    }
  }

  /**
   * Builds the record from a list of hits: ids in order and, only when
   * distances are included, their distances; otherwise the distance list is empty.
   */
  function ToSearchResult(hits: seq<SearchResultItem>, includeDistance: bool): (r: SearchResult)
    ensures r.Valid()
    ensures r.count == |hits| && r.isDistanceIncluded == includeDistance
    ensures forall i :: 0 <= i < r.count ==> r.idList[i] == hits[i].id
    ensures includeDistance ==> forall i :: 0 <= i < r.count ==> r.distanceList[i] == hits[i].distance
    ensures !includeDistance ==> r.distanceList == []
  {
    SearchResult(
      |hits|, includeDistance,
      seq(|hits|, i requires 0 <= i < |hits| => hits[i].id),
      if includeDistance then seq(|hits|, i requires 0 <= i < |hits| => hits[i].distance) else [])
  }
}
