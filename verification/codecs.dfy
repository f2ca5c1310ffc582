/** The codec inspection commands: classifying a codec name as hardware
    accelerated, listing codecs by kind, and discovering which hardware
    acceleration methods the decoders offer. The codec enumeration of the
    native library is an input sequence, in its enumeration order. */
module Codecs {
  import opened Results
  import opened Text

  /** `HW_ACEELS`: the hardware acceleration method names, in checking order. */
  const HwAccelNames: seq<string> := ["vdpau", "dxva2", "vda", "videotoolbox", "qsv", "vaapi", "cuvid"]

  /** One entry of the codec enumeration. */
  datatype Codec = Codec(name: string, isEncoder: bool)

  /** No element appears twice. */
  predicate NoDuplicates<T(==)>(s: seq<T>) {
    forall i, j :: 0 <= i < j < |s| ==> s[i] != s[j]
  }

  /** `accels[k]` is the first of `accels` that occurs in `name`. */
  predicate IsFirstContained(name: string, accels: seq<string>, k: nat) {
    k < |accels| && Contains(name, accels[k]) && forall j :: 0 <= j < k ==> !Contains(name, accels[j])
  }

  /** The first of `accels` contained in `name`, checked in order, as the
      for-each loops over the accelerator names do. */
  function FirstContained(name: string, accels: seq<string>): (r: Option<nat>)
    ensures r.Some? ==> IsFirstContained(name, accels, r.value)
    ensures r.None? <==> forall a :: a in accels ==> !Contains(name, a)
  {
    if |accels| == 0 then None
    else if Contains(name, accels[0]) then Some(0)
    else match FirstContained(name, accels[1..])
      case None => None
      case Some(i) => Some(i + 1)
  }

  /** `isHwAccelerated`: the first acceleration method name the codec name
      contains, if any, decides. */
  function IsHwAccelerated(codecName: string): (b: bool)
    ensures b <==> exists k :: IsFirstContained(codecName, HwAccelNames, k)
  {
    FirstContained(codecName, HwAccelNames).Some?
  }

  /** A codec counts as hardware exactly when one of the acceleration method
      names occurs in its name. */
  lemma IsHwAcceleratedMeans(codecName: string)
    ensures IsHwAccelerated(codecName) <==> exists a :: a in HwAccelNames && Contains(codecName, a)
  {
  }

  /** `printCodecs(encoders, hardware)` lists codec `c`. */
  predicate Selected(c: Codec, encoders: bool, hardware: bool) {
    c.isEncoder == encoders && IsHwAccelerated(c.name) == hardware
  }

  /** The names of the selected codecs, in enumeration order. */
  function SelectedNames(codecs: seq<Codec>, encoders: bool, hardware: bool): (names: seq<string>)
    ensures |names| <= |codecs|
  {
    if |codecs| == 0 then []
    else
      var last := codecs[|codecs| - 1];
      SelectedNames(codecs[..|codecs| - 1], encoders, hardware) + (if Selected(last, encoders, hardware) then [last.name] else [])
  }

  /** A name is listed exactly when some selected codec has it. */
  lemma {:induction false} SelectedNamesMembers(codecs: seq<Codec>, encoders: bool, hardware: bool)
    ensures forall n :: n in SelectedNames(codecs, encoders, hardware) <==>
              exists c :: c in codecs && Selected(c, encoders, hardware) && c.name == n
    decreases |codecs|
  {
    if |codecs| > 0 {
      var init := codecs[..|codecs| - 1];
      SelectedNamesMembers(init, encoders, hardware);
      assert codecs == init + [codecs[|codecs| - 1]];
    }
  }

  /** Listing distributes over concatenation of enumerations: the output
      keeps enumeration order. */
  lemma {:induction false} SelectedNamesAppend(a: seq<Codec>, b: seq<Codec>, encoders: bool, hardware: bool)
    ensures SelectedNames(a + b, encoders, hardware) == SelectedNames(a, encoders, hardware) + SelectedNames(b, encoders, hardware)
    decreases |b|
  {
    if |b| > 0 {
      var b' := b[..|b| - 1];
      assert (a + b)[..|a + b| - 1] == a + b';
      SelectedNamesAppend(a, b', encoders, hardware);
    } else {
      assert a + b == a;
    }
  }

  /** The names of all codecs, in enumeration order. */
  function Names(codecs: seq<Codec>): (names: seq<string>)
    ensures |names| == |codecs|
    ensures forall i :: 0 <= i < |codecs| ==> names[i] == codecs[i].name
  {
    seq(|codecs|, i requires 0 <= i < |codecs| => codecs[i].name)
  }

  /** The names of an enumeration extended by one codec. */
  lemma NamesSnoc(codecs: seq<Codec>)
    requires |codecs| > 0
    ensures multiset(Names(codecs)) == multiset(Names(codecs[..|codecs| - 1])) + multiset{codecs[|codecs| - 1].name}
  {
    assert Names(codecs) == Names(codecs[..|codecs| - 1]) + [codecs[|codecs| - 1].name];
  }

  /** Appending one name to exactly one of four lists adds it once to
      their combined multiset and one to their combined length. */
  lemma AppendToOneOfFour(ff: seq<string>, tf: seq<string>, ft: seq<string>, tt: seq<string>,
                          ff': seq<string>, tf': seq<string>, ft': seq<string>, tt': seq<string>,
                          x: string, e: bool, h: bool)
    requires ff' == ff + (if e == false && h == false then [x] else [])
    requires tf' == tf + (if e == true && h == false then [x] else [])
    requires ft' == ft + (if e == false && h == true then [x] else [])
    requires tt' == tt + (if e == true && h == true then [x] else [])
    ensures multiset(ff') + multiset(tf') + multiset(ft') + multiset(tt')
            == multiset(ff) + multiset(tf) + multiset(ft) + multiset(tt) + multiset{x}
    ensures |ff'| + |tf'| + |ft'| + |tt'| == |ff| + |tf| + |ft| + |tt| + 1
  {
  }

  /** The four listings (software/hardware decoders/encoders) partition the
      enumeration: every codec name appears in exactly one of them, as many
      times as it is enumerated. */
  lemma {:induction false} ListingsPartition(codecs: seq<Codec>)
    ensures multiset(Names(codecs)) ==
              multiset(SelectedNames(codecs, false, false)) + multiset(SelectedNames(codecs, true, false))
              + multiset(SelectedNames(codecs, false, true)) + multiset(SelectedNames(codecs, true, true))
    ensures |SelectedNames(codecs, false, false)| + |SelectedNames(codecs, true, false)|
              + |SelectedNames(codecs, false, true)| + |SelectedNames(codecs, true, true)| == |codecs|
    decreases |codecs|
  {
    if |codecs| > 0 {
      var n := |codecs| - 1;
      var init, c := codecs[..n], codecs[n];
      ListingsPartition(init);
      assert codecs[..n + 1] == codecs;
      NamesSnoc(codecs);
      SelectedNamesSnoc(codecs, n, false, false);
      SelectedNamesSnoc(codecs, n, true, false);
      SelectedNamesSnoc(codecs, n, false, true);
      SelectedNamesSnoc(codecs, n, true, true);
      AppendToOneOfFour(SelectedNames(init, false, false), SelectedNames(init, true, false),
                        SelectedNames(init, false, true), SelectedNames(init, true, true),
                        SelectedNames(codecs, false, false), SelectedNames(codecs, true, false),
                        SelectedNames(codecs, false, true), SelectedNames(codecs, true, true),
                        c.name, c.isEncoder, IsHwAccelerated(c.name));
    }
  }

  /** Listing one more codec of the enumeration. */
  lemma SelectedNamesSnoc(codecs: seq<Codec>, i: nat, encoders: bool, hardware: bool)
    requires i < |codecs|
    ensures SelectedNames(codecs[..i + 1], encoders, hardware)
            == SelectedNames(codecs[..i], encoders, hardware) + (if Selected(codecs[i], encoders, hardware) then [codecs[i].name] else [])
  {
    assert codecs[..i + 1][..i] == codecs[..i];
  }

  /** `printCodecs(encoders, hardware)`: the lines printed, one codec name
      each, or the single line `(none)` when no codec is selected. */
  method PrintCodecs(codecs: seq<Codec>, encoders: bool, hardware: bool) returns (lines: seq<string>)
    ensures SelectedNames(codecs, encoders, hardware) == [] ==> lines == ["(none)"]
    ensures SelectedNames(codecs, encoders, hardware) != [] ==> lines == SelectedNames(codecs, encoders, hardware)
  {
    lines := [];
    var printed := false;
    var i := 0;
    while i < |codecs|
      invariant 0 <= i <= |codecs|
      invariant lines == SelectedNames(codecs[..i], encoders, hardware)
      invariant printed <==> lines != []
    {
      SelectedNamesSnoc(codecs, i, encoders, hardware);
      var encoder := codecs[i].isEncoder;
      if (encoder && !encoders) || (!encoder && encoders) {
        i := i + 1;
        continue;
      }
      var name := codecs[i].name;
      var hw := IsHwAccelerated(name);
      if (hw && !hardware) || (!hw && hardware) {
        i := i + 1;
        continue;
      }
      lines := lines + [name];
      printed := true;
      i := i + 1;
    }
    assert codecs[..i] == codecs;
    if !printed {
      lines := lines + ["(none)"];
    }
  }

  /** A decoder whose name contains an acceleration method name. */
  predicate IsHwDecoder(c: Codec) {
    !c.isEncoder && IsHwAccelerated(c.name)
  }

  /** `codecs[i]` is the first hardware decoder of the enumeration. */
  predicate IsFirstHwDecoder(codecs: seq<Codec>, i: nat) {
    i < |codecs| && IsHwDecoder(codecs[i]) && forall j :: 0 <= j < i ==> !IsHwDecoder(codecs[j])
  }

  /** The exception `List.remove` throws on the fixed-size list of
      `Arrays.asList`, with the decoder and name being removed. */
  datatype Failure = UnsupportedOperation(decoder: string, accelerator: string)

  /** `codecs` has no hardware decoder, or `failure` names its first one and
      the first acceleration method name that decoder contains. */
  ghost predicate ReportsFirstHwDecoder(codecs: seq<Codec>, failure: Failure) {
    exists i: nat, k: nat ::
      && IsFirstHwDecoder(codecs, i)
      && IsFirstContained(codecs[i].name, HwAccelNames, k)
      && failure == UnsupportedOperation(codecs[i].name, HwAccelNames[k])
  }

  /** A failure reported for the enumeration after an entry that is not a
      hardware decoder is reported for the whole enumeration. */
  lemma ReportsFirstHwDecoderCons(codecs: seq<Codec>, failure: Failure)
    requires |codecs| > 0 && !IsHwDecoder(codecs[0])
    requires ReportsFirstHwDecoder(codecs[1..], failure)
    ensures ReportsFirstHwDecoder(codecs, failure)
  {
    var i: nat, k: nat :| && IsFirstHwDecoder(codecs[1..], i)
                          && IsFirstContained(codecs[1..][i].name, HwAccelNames, k)
                          && failure == UnsupportedOperation(codecs[1..][i].name, HwAccelNames[k]);
    assert IsFirstHwDecoder(codecs, i + 1);
  }

  /** `printHwAccelerators` as written: the first decoder that contains an
      acceleration method name makes `toTest.remove` throw, before anything
      is printed; with no such decoder, `(none)` is printed. */
  function HwAcceleratorsAsWritten(codecs: seq<Codec>): (r: Result<seq<string>, Failure>)
    ensures r.Ok? <==> forall c :: c in codecs ==> !IsHwDecoder(c)
    ensures r.Ok? ==> r.value == ["(none)"]
    ensures r.Err? ==> ReportsFirstHwDecoder(codecs, r.error)
    decreases |codecs|
  {
    if |codecs| == 0 then Ok(["(none)"])
    else if codecs[0].isEncoder then
      var r := HwAcceleratorsAsWritten(codecs[1..]);
      if r.Err? then ReportsFirstHwDecoderCons(codecs, r.error); r else r
    else match FirstContained(codecs[0].name, HwAccelNames)
      case Some(k) =>
        assert IsFirstHwDecoder(codecs, 0);
        Err(UnsupportedOperation(codecs[0].name, HwAccelNames[k]))
      case None =>
        var r := HwAcceleratorsAsWritten(codecs[1..]);
        if r.Err? then ReportsFirstHwDecoderCons(codecs, r.error); r else r
  }

  /** The number of decoders in the enumeration. */
  function DecoderCount(codecs: seq<Codec>): (n: nat)
    ensures n <= |codecs|
  {
    if |codecs| == 0 then 0
    else (if codecs[0].isEncoder then 0 else 1) + DecoderCount(codecs[1..])
  }

  /** `List.remove` of the `i`-th element, on a list that can shrink: the
      names before it stay in place and those after it move up by one. */
  function RemoveAt(s: seq<string>, i: nat): (r: seq<string>)
    requires i < |s|
    ensures |r| == |s| - 1
    ensures forall j :: 0 <= j < i ==> r[j] == s[j]
    ensures forall j :: i <= j < |r| ==> r[j] == s[j + 1]
    ensures forall x :: x in r ==> x in s
    ensures NoDuplicates(s) ==> NoDuplicates(r) && s[i] !in r
  {
    s[..i] + s[i + 1..]
  }

  /** The scan of `printHwAccelerators` as evidently intended, on a list
      that can shrink: while names remain to test, each decoder contributes
      the first remaining name it contains, which is removed and recorded. */
  function Discover(codecs: seq<Codec>, toTest: seq<string>, available: seq<string>): (found: seq<string>)
    requires NoDuplicates(toTest)
    ensures |available| <= |found| <= |available| + DecoderCount(codecs)
    ensures found[..|available|] == available
    ensures forall k :: |available| <= k < |found| ==> found[k] in toTest
    ensures NoDuplicates(found[|available|..])
    decreases |codecs|
  {
    if |toTest| == 0 || |codecs| == 0 then available
    else if codecs[0].isEncoder then Discover(codecs[1..], toTest, available)
    else match FirstContained(codecs[0].name, toTest)
      case None => Discover(codecs[1..], toTest, available)
      case Some(i) =>
        var rest := RemoveAt(toTest, i);
        var found := Discover(codecs[1..], rest, available + [toTest[i]]);
        assert found[..|available|] == (available + [toTest[i]])[..|available|];
        DropFirst(found, |available|);
        found
  }

  /** The suffix from `n` is its first element followed by the rest. */
  lemma DropFirst<T>(s: seq<T>, n: nat)
    requires n < |s|
    ensures s[n..] == [s[n]] + s[n + 1..]
  {
  }

  /** Some decoder of the enumeration has `n` in its name. */
  ghost predicate InSomeDecoder(codecs: seq<Codec>, n: string) {
    exists c :: c in codecs && !c.isEncoder && Contains(c.name, n)
  }

  /** Every name the intended scan records occurs in the name of a decoder
      of the enumeration. */
  lemma {:induction false} DiscoverWitnessed(codecs: seq<Codec>, toTest: seq<string>, available: seq<string>)
    requires NoDuplicates(toTest)
    ensures var found := Discover(codecs, toTest, available);
            forall k :: |available| <= k < |found| ==> InSomeDecoder(codecs, found[k])
    decreases |codecs|
  {
    if |toTest| > 0 && |codecs| > 0 {
      var found := Discover(codecs, toTest, available);
      var toTest', available' := toTest, available;
      if !codecs[0].isEncoder && FirstContained(codecs[0].name, toTest).Some? {
        var i := FirstContained(codecs[0].name, toTest).value;
        toTest', available' := RemoveAt(toTest, i), available + [toTest[i]];
        assert found[|available|] == toTest[i];
        assert codecs[0] in codecs;
      }
      assert found == Discover(codecs[1..], toTest', available');
      DiscoverWitnessed(codecs[1..], toTest', available');
      forall k | |available'| <= k < |found|
        ensures InSomeDecoder(codecs, found[k])
      {
        InSomeDecoderTail(codecs, found[k]);
      }
    }
  }

  /** A decoder after the first entry is a decoder of the enumeration. */
  lemma InSomeDecoderTail(codecs: seq<Codec>, n: string)
    requires |codecs| > 0 && InSomeDecoder(codecs[1..], n)
    ensures InSomeDecoder(codecs, n)
  {
    var c :| c in codecs[1..] && !c.isEncoder && Contains(c.name, n);
    assert c in codecs;
  }

  /** The intended scan records nothing exactly when no name is left to
      test or no decoder contains any of them. */
  lemma {:induction false} DiscoverNothingIff(codecs: seq<Codec>, toTest: seq<string>, available: seq<string>)
    requires NoDuplicates(toTest)
    ensures |Discover(codecs, toTest, available)| == |available| <==>
            (|toTest| == 0 || forall c, a :: c in codecs && !c.isEncoder && a in toTest ==> !Contains(c.name, a))
    decreases |codecs|
  {
    if |toTest| == 0 || |codecs| == 0 {
    } else if codecs[0].isEncoder {
      DiscoverNothingIff(codecs[1..], toTest, available);
      assert forall c :: c in codecs ==> c == codecs[0] || c in codecs[1..];
    } else {
      match FirstContained(codecs[0].name, toTest)
      case None =>
        DiscoverNothingIff(codecs[1..], toTest, available);
        assert forall c :: c in codecs ==> c == codecs[0] || c in codecs[1..];
      case Some(i) =>
        assert codecs[0] in codecs && Contains(codecs[0].name, toTest[i]);
    }
  }

  /** The acceleration method names are distinct. */
  lemma HwAccelNamesDistinct()
    ensures NoDuplicates(HwAccelNames)
  {
  }

  /** `printHwAccelerators` as evidently intended (remove, record, break on
      a list that can shrink): the recorded names, or `(none)`. */
  function HwAcceleratorsIntended(codecs: seq<Codec>): (lines: seq<string>)
    ensures |lines| > 0
    ensures lines == ["(none)"] <==> forall c :: c in codecs ==> !IsHwDecoder(c)
    ensures lines != ["(none)"] ==> NoDuplicates(lines)
    ensures lines != ["(none)"] ==> forall n :: n in lines ==> n in HwAccelNames
    ensures lines != ["(none)"] ==> |lines| <= DecoderCount(codecs)
    ensures lines != ["(none)"] ==> forall n :: n in lines ==> InSomeDecoder(codecs, n)
  {
    HwAccelNamesDistinct();
    var found := Discover(codecs, HwAccelNames, []);
    DiscoverWitnessed(codecs, HwAccelNames, []);
    DiscoverNothingIff(codecs, HwAccelNames, []);
    NoHwDecoderIff(codecs);
    assert found[0..] == found;
    NoneIsNotAnAccelerator(found);
    if |found| == 0 then ["(none)"] else found
  }

  /** No hardware decoder means no decoder contains any acceleration method name. */
  lemma NoHwDecoderIff(codecs: seq<Codec>)
    ensures (forall c :: c in codecs ==> !IsHwDecoder(c)) <==>
            (forall c, a :: c in codecs && !c.isEncoder && a in HwAccelNames ==> !Contains(c.name, a))
  {
    forall c | c in codecs {
      IsHwAcceleratedMeans(c.name);
    }
  }

  /** A non-empty list of acceleration method names is not the `(none)` line. */
  lemma NoneIsNotAnAccelerator(found: seq<string>)
    requires forall k :: 0 <= k < |found| ==> found[k] in HwAccelNames
    ensures |found| > 0 ==> found != ["(none)"]
  {
    if |found| > 0 {
      assert found[0] in HwAccelNames;
      assert "(none)" !in HwAccelNames;
    }
  }

  /** The intended scan's first record is the very name whose removal makes
      the code as written throw; where nothing is thrown, both print the
      same. */
  lemma IntendedFirstIsAsWrittenFailure(codecs: seq<Codec>)
    ensures HwAcceleratorsAsWritten(codecs).Ok? ==> HwAcceleratorsIntended(codecs) == HwAcceleratorsAsWritten(codecs).value
    ensures HwAcceleratorsAsWritten(codecs).Err? ==>
              HwAcceleratorsIntended(codecs)[0] == HwAcceleratorsAsWritten(codecs).error.accelerator
  {
    var r := HwAcceleratorsAsWritten(codecs);
    if r.Err? {
      HwAccelNamesDistinct();
      var i: nat, k: nat :| && IsFirstHwDecoder(codecs, i)
                            && IsFirstContained(codecs[i].name, HwAccelNames, k)
                            && r.error == UnsupportedOperation(codecs[i].name, HwAccelNames[k]);
      FirstContainedUnique(codecs[i].name, HwAccelNames, k, FirstContained(codecs[i].name, HwAccelNames).value);
      DiscoverFirstRecord(codecs, HwAccelNames, i, k);
      NoneIsNotAnAccelerator(Discover(codecs, HwAccelNames, []));
    }
  }

  /** Only one index is the first contained one. */
  lemma FirstContainedUnique(name: string, accels: seq<string>, k1: nat, k2: nat)
    requires IsFirstContained(name, accels, k1) && IsFirstContained(name, accels, k2)
    ensures k1 == k2
  {
  }

  /** Started with nothing recorded, the intended scan first records the
      first name of `toTest` found in the first decoder that contains one. */
  lemma {:induction false} DiscoverFirstRecord(codecs: seq<Codec>, toTest: seq<string>, i: nat, k: nat)
    requires NoDuplicates(toTest)
    requires i < |codecs| && !codecs[i].isEncoder && FirstContained(codecs[i].name, toTest) == Some(k)
    requires forall j :: 0 <= j < i ==> codecs[j].isEncoder || FirstContained(codecs[j].name, toTest).None?
    ensures |Discover(codecs, toTest, [])| > 0
    ensures Discover(codecs, toTest, [])[0] == toTest[k]
    decreases i
  {
    if i > 0 {
      assert Discover(codecs, toTest, []) == Discover(codecs[1..], toTest, []);
      DiscoverFirstRecord(codecs[1..], toTest, i - 1, k);
    } else {
      DiscoverRecordsMatch(codecs, toTest, k);
    }
  }

  /** A first decoder that contains `toTest[k]`, and no earlier name of
      `toTest`, has `toTest[k]` recorded first. */
  lemma DiscoverRecordsMatch(codecs: seq<Codec>, toTest: seq<string>, k: nat)
    requires NoDuplicates(toTest)
    requires |codecs| > 0 && !codecs[0].isEncoder && FirstContained(codecs[0].name, toTest) == Some(k)
    ensures |Discover(codecs, toTest, [])| > 0
    ensures Discover(codecs, toTest, [])[0] == toTest[k]
  {
    assert |toTest| > 0;
    var rest := Discover(codecs[1..], RemoveAt(toTest, k), [toTest[k]]);
    var none: seq<string> := [];
    assert none + [toTest[k]] == [toTest[k]];
    assert Discover(codecs, toTest, none) == rest;
    assert rest[..1] == [toTest[k]];
  }

  /** The code as written fails on the first hardware decoder: a single
      `h264_vdpau` decoder ends the command with the exception, where the
      intended scan prints `vdpau`. */
  lemma AsWrittenFailsOnHwDecoder()
    ensures HwAcceleratorsAsWritten([Codec("h264_vdpau", false)]) == Err(UnsupportedOperation("h264_vdpau", "vdpau"))
    ensures HwAcceleratorsIntended([Codec("h264_vdpau", false)]) == ["vdpau"]
  {
    assert OccursAt("h264_vdpau", "vdpau", 5);
    HwAccelNamesDistinct();
    var codecs := [Codec("h264_vdpau", false)];
    assert FirstContained("h264_vdpau", HwAccelNames) == Some(0);
    assert Discover(codecs, HwAccelNames, []) == ["vdpau"];
  }
}
