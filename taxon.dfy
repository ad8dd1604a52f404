/**
 * Classification of CNDDB records by taxonomic group, and the filter that
 * keeps only plant and animal records.
 */
module Taxon {

  datatype Category = Plant | Animal | Other

  /** The taxonomic groups classified as plants. */
  const PlantGroups: seq<string> :=
    ["Dicots", "Monocots", "Bryophytes", "Gymnosperms", "Herbaceous", "Lichens", "Ferns"]

  /** The taxonomic groups classified as animals. */
  const AnimalGroups: seq<string> :=
    ["Reptiles", "Mammals", "Birds", "Fish", "Mollusks", "Crustaceans", "Insects", "Amphibians", "Arachnids"]

  /** A row of the CNDDB attribute table: species name and taxonomic group. */
  datatype SpeciesRecord = SpeciesRecord(sname: string, taxonGroup: string)

  /** A CNDDB row with its table category column filled in. */
  datatype ClassifiedRecord = ClassifiedRecord(record: SpeciesRecord, category: Category)

  /**
   * The category of a taxonomic group. No group is listed as both a plant
   * and an animal, so each listed group gets exactly one category and every
   * other string is Other.
   */
  function AssignTaxonCategory(group: string): (c: Category)
    ensures c == Plant <==> group in PlantGroups
    ensures c == Animal <==> group in AnimalGroups
    ensures c == Other <==> group !in PlantGroups && group !in AnimalGroups
  {
    if group in PlantGroups then Plant
    else if group in AnimalGroups then Animal
    else Other
  }

  /** Adds the category column to every row, keeping the rows and their order. */
  function Classify(records: seq<SpeciesRecord>): seq<ClassifiedRecord> {
    seq(|records|, i requires 0 <= i < |records| =>
      ClassifiedRecord(records[i], AssignTaxonCategory(records[i].taxonGroup)))
  }

  /** The rows whose category is not Other, in their original order. */
  function DropOther(rows: seq<ClassifiedRecord>): (kept: seq<ClassifiedRecord>)
    ensures |kept| <= |rows|
    ensures forall i :: 0 <= i < |kept| ==> kept[i] in rows && kept[i].category != Other
    ensures forall i :: 0 <= i < |rows| && rows[i].category != Other ==> rows[i] in kept
  {
    if rows == [] then []
    else if rows[0].category == Other then DropOther(rows[1..])
    else [rows[0]] + DropOther(rows[1..])
  }

  /**
   * Filtering distributes over concatenation: the surviving rows keep their
   * relative order.
   */
  lemma {:induction false} DropOtherAppend(a: seq<ClassifiedRecord>, b: seq<ClassifiedRecord>)
    ensures DropOther(a + b) == DropOther(a) + DropOther(b)
    decreases a
  {
    if a == [] {
      assert a + b == b;
    } else {
      assert (a + b)[1..] == a[1..] + b;
      DropOtherAppend(a[1..], b);
    }
  }

  /** When nothing is Other, the filter keeps every row. */
  lemma {:induction false} DropOtherKeepsListed(rows: seq<ClassifiedRecord>)
    requires forall i :: 0 <= i < |rows| ==> rows[i].category != Other
    ensures DropOther(rows) == rows
    decreases rows
  {
    if rows != [] {
      DropOtherKeepsListed(rows[1..]);
    }
  }

  /**
   * The CNDDB table after classification and filtering: exactly the rows
   * whose group is a listed plant or animal group, each with the matching
   * category.
   */
  function SelectListedTaxa(records: seq<SpeciesRecord>): (kept: seq<ClassifiedRecord>)
    ensures forall i :: 0 <= i < |kept| ==>
      && kept[i].record in records
      && (kept[i].category == Plant <==> kept[i].record.taxonGroup in PlantGroups)
      && (kept[i].category == Animal <==> kept[i].record.taxonGroup in AnimalGroups)
      && (kept[i].category == Plant || kept[i].category == Animal)
    ensures forall i :: 0 <= i < |records| && records[i].taxonGroup in PlantGroups + AnimalGroups ==>
      ClassifiedRecord(records[i], AssignTaxonCategory(records[i].taxonGroup)) in kept
  {
    var classified := Classify(records);
    assert forall i :: 0 <= i < |classified| ==> classified[i].record == records[i];
    DropOther(classified)
  }
}
