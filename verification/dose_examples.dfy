/** Worked cases of the dose calculation on small tables. */
module DoseExamples {
  import opened Interfaces
  import opened Rounding
  import opened Dose

  const Amoxicillin: DrugData := DrugData("Amoxicillin", "Dog", 10.0, 50.0)

  /** 10 mg/kg for a 20 kg dog is 200 mg, which at 50 mg/ml is 4 ml. */
  lemma AmoxicillinForDog()
    ensures DoseFor([Amoxicillin], CalculateDoseDto("Dog", "Amoxicillin", 20.0))
            == Success(DoseCalculationResult(Amoxicillin, 20.0, 200.0, 4.0))
  {
    Round2OfCents(200.0);
    Round2OfCents(4.0);
  }

  /** The table has Amoxicillin only for dogs, so a cat gets not-found. */
  lemma AmoxicillinForCatIsNotFound()
    ensures DoseFor([Amoxicillin], CalculateDoseDto("Cat", "Amoxicillin", 5.0))
            == Failure(HttpException(NotFoundMessage("Amoxicillin", "Cat"), NotFound))
  {
    assert !Matches(Amoxicillin, "Amoxicillin", "Cat") by {
      assert "Dog"[0] != "Cat"[0];
    }
  }

  /** A weight of 0 or -5 is rejected before the lookup, even for a drug the
      table does not have. */
  lemma NonPositiveWeightWinsOverNotFound()
    ensures DoseFor([], CalculateDoseDto("Cat", "Amoxicillin", 0.0)).error.status == BadRequest
    ensures DoseFor([Amoxicillin], CalculateDoseDto("Cat", "Amoxicillin", -5.0)).error.message
            == WEIGHT_MESSAGE
  {
  }

  /** 3.333 mg/kg for 7 kg is 23.331 mg, reported as 23.33 mg. */
  lemma RoundsTotalDoseToHundredths()
    ensures DoseFor([DrugData("Meloxicam", "Cat", 3.333, 1.5)],
                    CalculateDoseDto("Cat", "Meloxicam", 7.0)).value.totalDoseMg == 23.33
  {
    assert IsCents(23.33) by {
      assert 100.0 * 23.33 == 2333.0;
    }
    Round2Unique(3.333 * 7.0, 23.33);
  }

  /** The volume is rounded from the exact total, not from the rounded one:
      0.014 mg at 0.1 mg/ml gives 0.14 ml, while the rounded total 0.01 mg
      would give 0.1 ml. */
  lemma VolumeUsesUnroundedTotal()
    ensures
      var rec := DrugData("Atropine", "Dog", 0.014, 0.1);
      var res := DoseFor([rec], CalculateDoseDto("Dog", "Atropine", 1.0)).value;
      && res.volumeToAdministerMl == 0.14
      && res.volumeToAdministerMl != Round2(res.totalDoseMg / rec.concentrationMgPerMl)
  {
    assert IsCents(0.14) by {
      assert 100.0 * 0.14 == 14.0;
    }
    assert IsCents(0.01) by {
      assert 100.0 * 0.01 == 1.0;
    }
    assert IsCents(0.1) by {
      assert 100.0 * 0.1 == 10.0;
    }
    Round2Unique(0.014 / 0.1, 0.14);
    Round2Unique(0.014, 0.01);
    Round2Unique(0.01 / 0.1, 0.1);
  }
}
