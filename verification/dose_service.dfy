/** The dose service: a reference table of drug records, fixed once it is
    loaded, and the two read-only queries over it — the catalogue of drugs
    and species, and the dose calculation for one animal. */
module Dose {
  import opened Interfaces
  import opened Strings
  import opened SortedSets
  import opened Rounding

  const WEIGHT_MESSAGE: string := "Weight must be a positive number"

  /** The not-found message, naming the requested drug and species. */
  function NotFoundMessage(drug: string, species: string): string
  {
    "Drug \"" + drug + "\" not found for species \"" + species + "\""
  }

  /** The message names both the drug and the species that were asked for. */
  lemma NotFoundMessageNames(drug: string, species: string)
    ensures Contains(NotFoundMessage(drug, species), drug)
    ensures Contains(NotFoundMessage(drug, species), species)
  {
    var m := NotFoundMessage(drug, species);
    var prefix := "Drug \"";
    var middle := "\" not found for species \"";
    var s := 6 + |drug| + 25;
    assert |prefix| == 6 && |middle| == 25;
    assert m == prefix + drug + middle + species + "\"";
    assert m[6..6 + |drug|] == drug;
    assert OccursAt(m, drug, 6);
    assert m[s..s + |species|] == species;
    assert OccursAt(m, species, s);
  }

  /** Every record's concentration can be divided by: the table a
      calculation runs on. */
  predicate NonZeroConcentrations(table: seq<DrugData>)
  {
    forall i :: 0 <= i < |table| ==> table[i].concentrationMgPerMl != 0.0
  }

  /** Exact, case-sensitive equality on both the drug name and the species. */
  predicate Matches(rec: DrugData, drug: string, species: string)
  {
    rec.drugName == drug && rec.species == species
  }

  predicate HasMatch(table: seq<DrugData>, drug: string, species: string)
  {
    exists i :: 0 <= i < |table| && Matches(table[i], drug, species)
  }

  /** Index `i` holds a matching record and no earlier record matches. */
  predicate IsFirstMatch(table: seq<DrugData>, drug: string, species: string, i: int)
  {
    && 0 <= i < |table|
    && Matches(table[i], drug, species)
    && forall j :: 0 <= j < i ==> !Matches(table[j], drug, species)
  }

  /** `Array.prototype.find` with the drug/species test: the first matching
      record in table order, or nothing when no record matches. */
  function FindDrug(table: seq<DrugData>, drug: string, species: string): (r: Option<DrugData>)
    ensures r.None? <==> !HasMatch(table, drug, species)
    ensures r.Some? ==> exists i :: IsFirstMatch(table, drug, species, i) && table[i] == r.value
  {
    if table == [] then None
    else if Matches(table[0], drug, species) then
      assert IsFirstMatch(table, drug, species, 0);
      Some(table[0])
    else
      var r := FindDrug(table[1..], drug, species);
      if r.Some? then
        var i :| IsFirstMatch(table[1..], drug, species, i) && table[1..][i] == r.value;
        assert IsFirstMatch(table, drug, species, i + 1);
        r
      else
        assert forall i :: 0 < i < |table| ==> table[i] == table[1..][i - 1];
        r
  }

  /** The exact total dose in mg: the dose rate times the weight. */
  function TotalDose(info: DrugData, weight: real): real
  {
    info.doseRateMgPerKg * weight
  }

  /** The exact volume in ml: the UNROUNDED total dose divided by the
      concentration. */
  function Volume(info: DrugData, weight: real): real
    requires info.concentrationMgPerMl != 0.0
  {
    TotalDose(info, weight) / info.concentrationMgPerMl
  }

  /** `calculateDose`: reject a weight that is not positive, look up the
      first record for the drug and species, and return it with the weight,
      the total dose and the volume, both rounded to two decimals. The volume
      is computed from the unrounded total. */
  function DoseFor(table: seq<DrugData>, dto: CalculateDoseDto): (r: Result<DoseCalculationResult>)
    requires NonZeroConcentrations(table)
    ensures dto.weight <= 0.0 ==> r == Failure(HttpException(WEIGHT_MESSAGE, BadRequest))
    ensures dto.weight > 0.0 && !HasMatch(table, dto.drug, dto.species) ==>
      r == Failure(HttpException(NotFoundMessage(dto.drug, dto.species), NotFound))
    ensures r.Success? <==> dto.weight > 0.0 && HasMatch(table, dto.drug, dto.species)
    ensures r.Success? ==>
      exists i :: IsFirstMatch(table, dto.drug, dto.species, i) && r.value.drugInfo == table[i]
    ensures r.Success? ==>
      var info := r.value.drugInfo;
      && r.value.animalWeightKg == dto.weight
      && r.value.totalDoseMg == Round2(TotalDose(info, dto.weight))
      && r.value.volumeToAdministerMl == Round2(Volume(info, dto.weight))
  {
    if dto.weight <= 0.0 then
      Failure(HttpException(WEIGHT_MESSAGE, BadRequest))
    else
      var drugInfo := FindDrug(table, dto.drug, dto.species);
      if drugInfo.None? then
        Failure(HttpException(NotFoundMessage(dto.drug, dto.species), NotFound))
      else
        var info := drugInfo.value;
        Success(DoseCalculationResult(
          info, dto.weight, Round2(TotalDose(info, dto.weight)), Round2(Volume(info, dto.weight))))
  }

  /** Every failure is one of the two errors, with its HTTP status; a
      not-found error names both the drug and the species requested. */
  lemma DoseForErrors(table: seq<DrugData>, dto: CalculateDoseDto)
    requires NonZeroConcentrations(table)
    ensures DoseFor(table, dto).Failure? ==>
      var e := DoseFor(table, dto).error;
      || (e.status.Code() == 400 && e.message == WEIGHT_MESSAGE && dto.weight <= 0.0)
      || (e.status.Code() == 404 && Contains(e.message, dto.drug) && Contains(e.message, dto.species))
  {
    NotFoundMessageNames(dto.drug, dto.species);
  }

  /** Both derived quantities are whole numbers of hundredths within 0.005
      of the exact dose and volume, rounding them again leaves them as they
      are, and neither is negative when the record's rate and concentration
      are positive. */
  lemma DoseForRounding(table: seq<DrugData>, dto: CalculateDoseDto)
    requires NonZeroConcentrations(table)
    requires DoseFor(table, dto).Success?
    ensures
      var res := DoseFor(table, dto).value;
      var exactDose := TotalDose(res.drugInfo, dto.weight);
      var exactVolume := Volume(res.drugInfo, dto.weight);
      && IsCents(res.totalDoseMg) && IsCents(res.volumeToAdministerMl)
      && exactDose - 0.005 < res.totalDoseMg <= exactDose + 0.005
      && exactVolume - 0.005 < res.volumeToAdministerMl <= exactVolume + 0.005
      && Round2(res.totalDoseMg) == res.totalDoseMg
      && Round2(res.volumeToAdministerMl) == res.volumeToAdministerMl
      && (res.drugInfo.doseRateMgPerKg > 0.0 && res.drugInfo.concentrationMgPerMl > 0.0 ==>
            res.totalDoseMg >= 0.0 && res.volumeToAdministerMl >= 0.0)
  {
    var res := DoseFor(table, dto).value;
    var info := res.drugInfo;
    assert dto.weight > 0.0 && info.concentrationMgPerMl != 0.0;
    var exactDose, exactVolume := TotalDose(info, dto.weight), Volume(info, dto.weight);
    assert res.totalDoseMg == Round2(exactDose);
    assert res.volumeToAdministerMl == Round2(exactVolume);
    Round2OfCents(res.totalDoseMg);
    Round2OfCents(res.volumeToAdministerMl);
    if info.doseRateMgPerKg > 0.0 && info.concentrationMgPerMl > 0.0 {
      ProductPositive(info.doseRateMgPerKg, dto.weight);
      QuotientPositive(exactDose, info.concentrationMgPerMl);
    }
  }

  lemma ProductPositive(a: real, b: real)
    requires a > 0.0 && b > 0.0
    ensures a * b > 0.0
  {
  }

  lemma QuotientPositive(a: real, b: real)
    requires a > 0.0 && b > 0.0
    ensures a / b > 0.0
  {
  }

  /** Appending records after a table that already holds a match does not
      change what `find` returns: the first match wins over duplicates. */
  lemma {:induction false} FindDrugFirstMatchWins(
    table: seq<DrugData>, extra: seq<DrugData>, drug: string, species: string)
    requires HasMatch(table, drug, species)
    ensures FindDrug(table + extra, drug, species) == FindDrug(table, drug, species)
  {
    assert (table + extra)[0] == table[0];
    if !Matches(table[0], drug, species) {
      assert (table + extra)[1..] == table[1..] + extra;
      var i :| 0 <= i < |table| && Matches(table[i], drug, species);
      assert table[1..][i - 1] == table[i];
      FindDrugFirstMatchWins(table[1..], extra, drug, species);
    }
  }

  /** Records after a match never change the calculation. */
  lemma DoseForIgnoresLaterDuplicates(table: seq<DrugData>, extra: seq<DrugData>, dto: CalculateDoseDto)
    requires NonZeroConcentrations(table) && NonZeroConcentrations(extra)
    requires HasMatch(table, dto.drug, dto.species)
    ensures NonZeroConcentrations(table + extra)
    ensures DoseFor(table + extra, dto) == DoseFor(table, dto)
  {
    assert forall i :: 0 <= i < |table + extra| ==>
      (table + extra)[i] == if i < |table| then table[i] else extra[i - |table|];
    FindDrugFirstMatchWins(table, extra, dto.drug, dto.species);
  }

  /** Some record of the table is for drug `d`. */
  predicate HasDrugName(table: seq<DrugData>, d: string)
  {
    exists i :: 0 <= i < |table| && table[i].drugName == d
  }

  /** Some record of the table is for species `s`. */
  predicate HasSpecies(table: seq<DrugData>, s: string)
  {
    exists i :: 0 <= i < |table| && table[i].species == s
  }

  /** The drug names of the table's records, in table order. */
  function DrugNames(table: seq<DrugData>): (names: seq<string>)
    ensures |names| == |table|
    ensures forall i :: 0 <= i < |table| ==> names[i] == table[i].drugName
  {
    seq(|table|, i requires 0 <= i < |table| => table[i].drugName)
  }

  /** The species of the table's records, in table order. */
  function SpeciesNames(table: seq<DrugData>): (names: seq<string>)
    ensures |names| == |table|
    ensures forall i :: 0 <= i < |table| ==> names[i] == table[i].species
  {
    seq(|table|, i requires 0 <= i < |table| => table[i].species)
  }

  /** `getDrugsAndSpecies`: the distinct drug names and the distinct species,
      each strictly ascending, a name listed exactly when some record has it. */
  function CatalogueOf(table: seq<DrugData>): (c: DrugsAndSpecies)
    ensures StrictlyAscending(c.drugs) && StrictlyAscending(c.species)
    ensures forall d :: d in c.drugs <==> HasDrugName(table, d)
    ensures forall s :: s in c.species <==> HasSpecies(table, s)
  {
    var drugNames, speciesNames := DrugNames(table), SpeciesNames(table);
    assert forall d :: d in drugNames <==> HasDrugName(table, d) by {
      forall d | d in drugNames
        ensures HasDrugName(table, d)
      {
        var i :| 0 <= i < |drugNames| && drugNames[i] == d;
      }
    }
    assert forall s :: s in speciesNames <==> HasSpecies(table, s) by {
      forall s | s in speciesNames
        ensures HasSpecies(table, s)
      {
        var i :| 0 <= i < |speciesNames| && speciesNames[i] == s;
      }
    }
    DrugsAndSpecies(SortedDistinct(drugNames), SortedDistinct(speciesNames))
  }

  /** The catalogue is duplicate-free. */
  lemma CatalogueDistinct(table: seq<DrugData>)
    ensures Distinct(CatalogueOf(table).drugs) && Distinct(CatalogueOf(table).species)
  {
    var c := CatalogueOf(table);
    forall i, j | 0 <= i < j < |c.drugs|
      ensures c.drugs[i] != c.drugs[j]
    {
      LessIrreflexive(c.drugs[i]);
    }
    forall i, j | 0 <= i < j < |c.species|
      ensures c.species[i] != c.species[j]
    {
      LessIrreflexive(c.species[i]);
    }
  }

  /** The catalogue depends only on which names occur, not on their order
      or repetition in the table. */
  lemma CatalogueDependsOnlyOnNames(t1: seq<DrugData>, t2: seq<DrugData>)
    requires forall d :: HasDrugName(t1, d) <==> HasDrugName(t2, d)
    requires forall s :: HasSpecies(t1, s) <==> HasSpecies(t2, s)
    ensures CatalogueOf(t1) == CatalogueOf(t2)
  {
    var c1, c2 := CatalogueOf(t1), CatalogueOf(t2);
    StrictlyAscendingUnique(c1.drugs, c2.drugs);
    StrictlyAscendingUnique(c1.species, c2.species);
  }

  /** The service object: it owns the reference table, which is fixed once
      the service has started and is read by both queries. */
  class DoseService {
    const drugData: seq<DrugData>

    ghost predicate Valid()
    {
      NonZeroConcentrations(drugData)
    }

    /** The table as loaded at start-up. */
    constructor (table: seq<DrugData>)
      requires NonZeroConcentrations(table)
      ensures Valid() && drugData == table
    {
      drugData := table;
    }

    /** The catalogue of the table. */
    method GetDrugsAndSpecies() returns (c: DrugsAndSpecies)
      ensures c == CatalogueOf(drugData)
      ensures StrictlyAscending(c.drugs) && StrictlyAscending(c.species)
    {
      c := CatalogueOf(drugData);
    }

    /** The dose for one request against the table, which never changes,
        so the same request always gets the same answer. */
    method CalculateDose(dto: CalculateDoseDto) returns (r: Result<DoseCalculationResult>)
      requires Valid()
      ensures r == DoseFor(drugData, dto)
      ensures r.Success? <==> dto.weight > 0.0 && HasMatch(drugData, dto.drug, dto.species)
    {
      r := DoseFor(drugData, dto);
    }
  }
}
