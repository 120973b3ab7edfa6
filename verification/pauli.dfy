/** Conversions between a pair of binary error vectors (X part, Z part) and
    a list of single-qubit Pauli letters (utils.py).

    Entries are integers, as in the numpy arrays the simulator passes: a
    position whose pair of entries is not one of (0,0), (1,0), (0,1), (1,1)
    matches no branch of `binary_pair_to_pauli_list` and contributes no
    letter. A list element is a Python string of any length, so "" and "XY"
    are elements too; only "I", "X", "Y" and "Z" are letters. */
module Pauli {
  import opened Bits
  import opened Results

  /** The letter for one (x, z) pair, or nothing for a non-binary pair. */
  function Letter(x: int, z: int): (p: seq<string>) {
    if x == 0 && z == 0 then ["I"]
    else if x == 1 && z == 0 then ["X"]
    else if x == 0 && z == 1 then ["Z"]
    else if x == 1 && z == 1 then ["Y"]
    else []
  }

  /** The (x, z) components of one letter, in the branch order of
      `pauli_list_to_binary_pair`. */
  function LetterBits(c: string): (b: Option<(int, int)>)
    ensures b.Some? <==> IsPauliLetter(c)
    ensures b.Some? ==> (b.value.0 == 0 || b.value.0 == 1) && (b.value.1 == 0 || b.value.1 == 1)
  {
    if c == "I" then Some((0, 0))
    else if c == "X" then Some((1, 0))
    else if c == "Z" then Some((0, 1))
    else if c == "Y" then Some((1, 1))
    else None
  }

  /** On one position the two conversions are inverse to each other. */
  lemma LetterRoundTrip(x: int, z: int, c: string)
    ensures (x == 0 || x == 1) && (z == 0 || z == 1) ==>
              Letter(x, z) == [Letter(x, z)[0]] && LetterBits(Letter(x, z)[0]) == Some((x, z))
    ensures IsPauliLetter(c) ==> Letter(LetterBits(c).value.0, LetterBits(c).value.1) == [c]
  {
  }

  predicate IsBinary(v: seq<int>) {
    forall i :: 0 <= i < |v| ==> v[i] == 0 || v[i] == 1
  }

  predicate IsPauliLetter(p: string) {
    p == "I" || p == "X" || p == "Y" || p == "Z"
  }

  /** `binary_pair_to_pauli_list`: one letter per position of
      `zip(eX, eZ)`, which stops at the shorter vector. */
  function BinaryPairToPauli(eX: seq<int>, eZ: seq<int>): (p: seq<string>)
    ensures |p| <= |eX| && |p| <= |eZ|
    ensures IsBinary(eX) && IsBinary(eZ) && |eX| == |eZ| ==> |p| == |eX|
    decreases |eX|
  {
    var k := if |eX| < |eZ| then |eX| else |eZ|;
    if k == 0 then []
    else BinaryPairToPauli(eX[..k - 1], eZ[..k - 1]) + Letter(eX[k - 1], eZ[k - 1])
  }

  /** `pauli_list_to_binary_pair`: the X and Z parts of each letter, or the
      ValueError raised at the first letter outside {I, X, Y, Z}. */
  function PauliToBinaryPair(p: seq<string>): (r: Result<(seq<int>, seq<int>), string>)
    ensures r.Success? ==> |r.value.0| == |p| && |r.value.1| == |p|
    ensures r.Success? ==> IsBinary(r.value.0) && IsBinary(r.value.1)
  {
    if |p| == 0 then Success(([], []))
    else
      match PauliToBinaryPair(p[..|p| - 1])
      case Failure(msg) => Failure(msg)
      case Success(pair) =>
        var c := p[|p| - 1];
        match LetterBits(c)
        case None => Failure("unknown pauli " + c)
        case Some(b) => Success((pair.0 + [b.0], pair.1 + [b.1]))
  }

  /** `pauli_list_weight`: the number of non-identity letters. */
  function PauliWeight(p: seq<string>): (w: nat)
    ensures w <= |p|
  {
    if |p| == 0 then 0
    else PauliWeight(p[..|p| - 1]) + (if p[|p| - 1] != "I" then 1 else 0)
  }

  /** Positions where the pair has an X or a Z component. */
  function Support(eX: seq<int>, eZ: seq<int>): (s: Bits)
    requires |eX| == |eZ|
    ensures |s| == |eX|
  {
    seq(|eX|, i requires 0 <= i < |eX| => eX[i] == 1 || eZ[i] == 1)
  }

  lemma SnocPrefix<T>(s: seq<T>)
    requires |s| > 0
    ensures s == s[..|s| - 1] + [s[|s| - 1]]
  {
  }

  /** Extending a decodable letter list by one Pauli letter extends both
      vectors by that letter's components. */
  lemma DecodeSnoc(p: seq<string>, c: string)
    requires PauliToBinaryPair(p).Success? && IsPauliLetter(c)
    ensures PauliToBinaryPair(p + [c]) ==
            Success((PauliToBinaryPair(p).value.0 + [LetterBits(c).value.0],
                     PauliToBinaryPair(p).value.1 + [LetterBits(c).value.1]))
  {
    assert (p + [c])[..|p|] == p;
  }

  /** The letter list of equal-length vectors ends with the letter of their
      last position. */
  lemma EncodeSnoc(eX: seq<int>, eZ: seq<int>)
    requires |eX| == |eZ| > 0
    ensures BinaryPairToPauli(eX, eZ) ==
            BinaryPairToPauli(eX[..|eX| - 1], eZ[..|eZ| - 1]) + Letter(eX[|eX| - 1], eZ[|eZ| - 1])
  {
  }

  lemma SupportPrefix(eX: seq<int>, eZ: seq<int>)
    requires |eX| == |eZ| > 0
    ensures Support(eX, eZ)[..|eX| - 1] == Support(eX[..|eX| - 1], eZ[..|eZ| - 1])
  {
  }

  /** Decoding the letters of a binary pair gives the pair back. */
  lemma {:induction false} BinaryPairRoundTrip(eX: seq<int>, eZ: seq<int>)
    requires IsBinary(eX) && IsBinary(eZ) && |eX| == |eZ|
    ensures PauliToBinaryPair(BinaryPairToPauli(eX, eZ)) == Success((eX, eZ))
    decreases |eX|
  {
    if |eX| > 0 {
      var k := |eX| - 1;
      var x, z := eX[..k], eZ[..k];
      assert IsBinary(x) && IsBinary(z);
      BinaryPairRoundTrip(x, z);
      LetterRoundTrip(eX[k], eZ[k], "I");
      var c := Letter(eX[k], eZ[k])[0];
      EncodeSnoc(eX, eZ);
      assert BinaryPairToPauli(eX, eZ) == BinaryPairToPauli(x, z) + [c];
      DecodeSnoc(BinaryPairToPauli(x, z), c);
      assert PauliToBinaryPair(BinaryPairToPauli(eX, eZ)) == Success((x + [eX[k]], z + [eZ[k]]));
      SnocPrefix(eX);
      SnocPrefix(eZ);
    } else {
      assert BinaryPairToPauli(eX, eZ) == [];
    }
  }

  /** Encoding the decoded pair of a valid letter list gives the list back. */
  lemma {:induction false} PauliRoundTrip(p: seq<string>)
    requires forall i :: 0 <= i < |p| ==> IsPauliLetter(p[i])
    ensures PauliToBinaryPair(p).Success?
    ensures BinaryPairToPauli(PauliToBinaryPair(p).value.0, PauliToBinaryPair(p).value.1) == p
    decreases |p|
  {
    if |p| > 0 {
      var k := |p| - 1;
      var p' := p[..k];
      PauliRoundTrip(p');
      var pair := PauliToBinaryPair(p').value;
      var b := LetterBits(p[k]).value;
      SnocPrefix(p);
      DecodeSnoc(p', p[k]);
      var full := (pair.0 + [b.0], pair.1 + [b.1]);
      assert PauliToBinaryPair(p) == Success(full);
      assert full.0[..k] == pair.0 && full.1[..k] == pair.1;
      EncodeSnoc(full.0, full.1);
      LetterRoundTrip(b.0, b.1, p[k]);
    }
  }

  /** Decoding fails exactly when some letter is not a Pauli letter. */
  lemma {:induction false} DecodeFailsIff(p: seq<string>)
    ensures PauliToBinaryPair(p).Failure? <==> exists i :: 0 <= i < |p| && !IsPauliLetter(p[i])
    decreases |p|
  {
    if |p| > 0 {
      var k := |p| - 1;
      var p' := p[..k];
      DecodeFailsIff(p');
      if PauliToBinaryPair(p').Failure? {
        var i :| 0 <= i < k && !IsPauliLetter(p'[i]);
        assert p[i] == p'[i];
      } else {
        forall i | 0 <= i < k ensures IsPauliLetter(p[i]) {
          assert p[i] == p'[i];
        }
      }
    }
  }

  /** The ValueError names the first letter outside {I, X, Y, Z}. */
  lemma {:induction false} DecodeFirstError(p: seq<string>, i: nat)
    requires i < |p| && !IsPauliLetter(p[i])
    requires forall j :: 0 <= j < i ==> IsPauliLetter(p[j])
    ensures PauliToBinaryPair(p) == Failure("unknown pauli " + p[i])
    decreases |p|
  {
    var k := |p| - 1;
    var p' := p[..k];
    if i < k {
      assert PauliToBinaryPair(p') == Failure("unknown pauli " + p[i]) by {
        assert forall j :: 0 <= j < i ==> p'[j] == p[j];
        DecodeFirstError(p', i);
      }
    } else {
      assert PauliToBinaryPair(p').Success? by {
        assert forall j :: 0 <= j < k ==> IsPauliLetter(p'[j]);
        PauliRoundTrip(p');
      }
      assert LetterBits(p[k]).None?;
    }
  }

  lemma PauliWeightSnoc(p: seq<string>, c: string)
    ensures PauliWeight(p + [c]) == PauliWeight(p) + (if c != "I" then 1 else 0)
  {
    assert (p + [c])[..|p|] == p;
  }

  /** The weight of the letter list of a binary pair is the number of
      positions where either vector holds a 1. */
  lemma {:induction false} WeightOfPair(eX: seq<int>, eZ: seq<int>)
    requires IsBinary(eX) && IsBinary(eZ) && |eX| == |eZ|
    ensures PauliWeight(BinaryPairToPauli(eX, eZ)) == Weight(Support(eX, eZ))
    decreases |eX|
  {
    if |eX| > 0 {
      var k := |eX| - 1;
      var x, z := eX[..k], eZ[..k];
      assert IsBinary(x) && IsBinary(z);
      WeightOfPair(x, z);
      LetterRoundTrip(eX[k], eZ[k], "I");
      var c := Letter(eX[k], eZ[k])[0];
      EncodeSnoc(eX, eZ);
      PauliWeightSnoc(BinaryPairToPauli(x, z), c);
      SupportPrefix(eX, eZ);
    }
  }
}
