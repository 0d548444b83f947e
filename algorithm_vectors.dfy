/** The expectations of test/algorithm.test.js:9-45, concluded from the
    contracts of the four methods. */
module AlgorithmVectors {
  import opened Algorithms

  method MatrixVectors()
  {
    var d := MatrixDiagonalSubtraction([[1, 2, 0], [4, 5, 6], [7, 8, 9]]);
    assert d == 3;
    var e := MatrixDiagonalSubtraction([[1, 2, 3], [4, 5, 6], [7, 8, 9]]);
    assert e == 0;
  }

  method CountQueryVectors()
  {
    var input := ["xc", "dz", "bbb", "dz"];
    var counts := CountQuery(input, ["bbb", "ac", "dz"]);
    OccurrencesIsMultiplicity(input, "bbb");
    OccurrencesIsMultiplicity(input, "ac");
    OccurrencesIsMultiplicity(input, "dz");
    assert counts == [1, 0, 2];
  }

  method ReverseAlphabetVectors()
  {
    var r := ReverseAlphabet("A1B2C3");
    NonDigitsOfInput();
    NonDigitsOfOutput();
    assert Reverse("ABC") == "CBA";
    assert LettersReversed("A1B2C3", "C1B2A3");
    LettersReversedUnique("A1B2C3", r, "C1B2A3");
    assert r == "C1B2A3";
  }

  /** The digit removal of the input of the third vector, character by character. */
  lemma NonDigitsOfInput()
    ensures NonDigits("A1B2C3") == "ABC"
  {
    NonDigitsSnoc("", 'A');
    assert "" + ['A'] == "A";
    NonDigitsSnoc("A", '1');
    assert "A" + ['1'] == "A1";
    NonDigitsSnoc("A1", 'B');
    assert "A1" + ['B'] == "A1B";
    NonDigitsSnoc("A1B", '2');
    assert "A1B" + ['2'] == "A1B2";
    NonDigitsSnoc("A1B2", 'C');
    assert "A1B2" + ['C'] == "A1B2C";
    NonDigitsSnoc("A1B2C", '3');
    assert "A1B2C" + ['3'] == "A1B2C3";
  }

  /** The digit removal of the expected output of the third vector. */
  lemma NonDigitsOfOutput()
    ensures NonDigits("C1B2A3") == "CBA"
  {
    NonDigitsSnoc("", 'C');
    assert "" + ['C'] == "C";
    NonDigitsSnoc("C", '1');
    assert "C" + ['1'] == "C1";
    NonDigitsSnoc("C1", 'B');
    assert "C1" + ['B'] == "C1B";
    NonDigitsSnoc("C1B", '2');
    assert "C1B" + ['2'] == "C1B2";
    NonDigitsSnoc("C1B2", 'A');
    assert "C1B2" + ['A'] == "C1B2A";
    NonDigitsSnoc("C1B2A", '3');
    assert "C1B2A" + ['3'] == "C1B2A3";
  }
}
