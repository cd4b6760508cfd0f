/** Per-country state of the map front end: the `countryColors` dictionary
    (country code to colour, percentage and name), the vector source of the
    features drawn, the update done for each map feature, and the labels of
    the bar chart of counts. */
module Countries {
  import opened Palette
  import opened Percent

  datatype Option<T> = None | Some(value: T)

  /** A map feature, seen through the two properties the front end reads:
      its two-letter country code and its (possibly absent) display name. */
  datatype Feature = Feature(isoA2: string, name: Option<string>)

  /** What `countryColors` holds for one country. */
  datatype CountryRecord = CountryRecord(color: string, decalage: nat, name: Option<string>)

  /** The counts delivered by the back end: one count of titles per location
      code. The front end reads the group under the key "Total" as the total;
      nothing bounds the other counts by it. */
  type Locations = map<string, nat>

  const TotalKey: string := "Total"
  /** A code the front end never draws. */
  const SkippedCode: string := "I T"
  /** The code of titles with no known country, and the label shown for it. */
  const UnknownCode: string := "ZZ"
  const UnknownName: string := "Unknown Territory"

  predicate HasTotal(locations: Locations) {
    TotalKey in locations && locations[TotalKey] > 0
  }

  /** The colour table entry used for countries (entry 0) can be looked up. */
  predicate Ready(colors: seq<ColorEntry>) {
    |colors| > 0 && Usable(colors[0])
  }

  /** A feature that processing records: it has a count and is not skipped. */
  predicate Counted(feature: Feature, locations: Locations) {
    feature.isoA2 in locations && feature.isoA2 != SkippedCode
  }

  /** A record whose colour is the entry-0 colour of its own percentage. */
  predicate Consistent(colors: seq<ColorEntry>, rec: CountryRecord)
    requires Ready(colors)
  {
    rec.color == GetColor(colors, rec.decalage, 0)
  }

  predicate AllConsistent(colors: seq<ColorEntry>, cc: map<string, CountryRecord>)
    requires Ready(colors)
  {
    forall k :: k in cc ==> Consistent(colors, cc[k])
  }

  /** The record written for a counted feature. */
  function RecordFor(colors: seq<ColorEntry>, feature: Feature, locations: Locations): (rec: CountryRecord)
    requires Ready(colors) && HasTotal(locations) && feature.isoA2 in locations
    ensures rec.decalage == Percentage(locations[feature.isoA2], locations[TotalKey])
    ensures Consistent(colors, rec) && rec.name == feature.name
    ensures locations[feature.isoA2] <= locations[TotalKey] ==> rec.decalage <= 100
    ensures colors[0].Ramp? ==> rec.color in colors[0].shades
  {
    var p := Percentage(locations[feature.isoA2], locations[TotalKey]);
    PercentageBounds(locations[feature.isoA2], locations[TotalKey]);
    CountryRecord(GetColor(colors, p, 0), p, feature.name)
  }

  /** `countryColors` after processing one feature. */
  function Processed(colors: seq<ColorEntry>, cc: map<string, CountryRecord>,
                     feature: Feature, locations: Locations): (r: map<string, CountryRecord>)
    requires Ready(colors) && HasTotal(locations)
    ensures !Counted(feature, locations) ==> r == cc
    ensures Counted(feature, locations) ==> r.Keys == cc.Keys + {feature.isoA2}
    ensures forall k :: k in cc && k != feature.isoA2 ==> k in r && r[k] == cc[k]
    ensures Counted(feature, locations) ==>
      && r[feature.isoA2].decalage == Percentage(locations[feature.isoA2], locations[TotalKey])
      && Consistent(colors, r[feature.isoA2])
      && r[feature.isoA2].name == feature.name
  {
    if Counted(feature, locations) then cc[feature.isoA2 := RecordFor(colors, feature, locations)]
    else cc
  }

  /** Processing keeps every record consistent. */
  lemma ProcessedConsistent(colors: seq<ColorEntry>, cc: map<string, CountryRecord>,
                            feature: Feature, locations: Locations)
    requires Ready(colors) && HasTotal(locations) && AllConsistent(colors, cc)
    ensures AllConsistent(colors, Processed(colors, cc, feature, locations))
  {
  }

  /** A country's percentage is at most 100 when its count does not exceed the
      total; if entry 0 is a ramp, its colour is one of the ramp's shades. */
  lemma ProcessedRecordBounds(colors: seq<ColorEntry>, cc: map<string, CountryRecord>,
                              feature: Feature, locations: Locations)
    requires Ready(colors) && HasTotal(locations) && Counted(feature, locations)
    ensures locations[feature.isoA2] <= locations[TotalKey] ==>
      Processed(colors, cc, feature, locations)[feature.isoA2].decalage <= 100
    ensures colors[0].Ramp? ==>
      Processed(colors, cc, feature, locations)[feature.isoA2].color in colors[0].shades
  {
    PercentageBounds(locations[feature.isoA2], locations[TotalKey]);
  }

  /** The features that end up in the vector source, in order: exactly the
      counted ones. */
  function Kept(features: seq<Feature>, locations: Locations): (kept: seq<Feature>)
    ensures forall f :: f in kept <==> f in features && Counted(f, locations)
    ensures |kept| <= |features|
    ensures |features| == 1 ==> kept == (if Counted(features[0], locations) then features else [])
  {
    if features == [] then []
    else
      var init, last := features[..|features| - 1], features[|features| - 1];
      assert features == init + [last];
      Kept(init, locations) + (if Counted(last, locations) then [last] else [])
  }

  /** Filtering distributes over concatenation: the kept features of a
      concatenation are those of each part, in order. With the one-element
      case of Kept's contract this fixes both the order of the kept features
      and how often each occurs. */
  lemma {:induction false} KeptAppend(a: seq<Feature>, b: seq<Feature>, locations: Locations)
    ensures Kept(a + b, locations) == Kept(a, locations) + Kept(b, locations)
  {
    if b == [] {
      assert a + b == a;
    } else {
      var init := b[..|b| - 1];
      assert (a + b)[..|a + b| - 1] == a + init;
      assert (a + b)[|a + b| - 1] == b[|b| - 1];
      KeptAppend(a, init, locations);
    }
  }

  /** `countryColors` after processing every feature in order: no key is
      lost and consistent records stay consistent. */
  function ProcessedAll(colors: seq<ColorEntry>, cc: map<string, CountryRecord>,
                        features: seq<Feature>, locations: Locations): (r: map<string, CountryRecord>)
    requires Ready(colors) && HasTotal(locations)
    ensures cc.Keys <= r.Keys
    ensures AllConsistent(colors, cc) ==> AllConsistent(colors, r)
  {
    if features == [] then cc
    else
      var before := ProcessedAll(colors, cc, features[..|features| - 1], locations);
      Processed(colors, before, features[|features| - 1], locations)
  }

  /** After loading, the dictionary's keys are the old keys plus the codes of
      the counted features. */
  lemma {:induction false} ProcessedAllKeys(colors: seq<ColorEntry>, cc: map<string, CountryRecord>,
                                            features: seq<Feature>, locations: Locations)
    requires Ready(colors) && HasTotal(locations)
    ensures ProcessedAll(colors, cc, features, locations).Keys ==
      cc.Keys + set f | f in Kept(features, locations) :: f.isoA2
  {
    if features != [] {
      var init, last := features[..|features| - 1], features[|features| - 1];
      ProcessedAllKeys(colors, cc, init, locations);
      var kept := Kept(features, locations);
      assert kept == Kept(init, locations) + (if Counted(last, locations) then [last] else []);
      assert (set f | f in kept :: f.isoA2) ==
        (set f | f in Kept(init, locations) :: f.isoA2) +
        (if Counted(last, locations) then {last.isoA2} else {});
    }
  }

  /** After loading, every counted feature's record carries its country's
      percentage and the matching colour, whichever feature of that code came
      last. */
  lemma {:induction false} ProcessedAllRecords(colors: seq<ColorEntry>, cc: map<string, CountryRecord>,
                                               features: seq<Feature>, locations: Locations)
    requires Ready(colors) && HasTotal(locations)
    ensures forall f :: f in features && Counted(f, locations) ==>
      && f.isoA2 in ProcessedAll(colors, cc, features, locations)
      && ProcessedAll(colors, cc, features, locations)[f.isoA2].decalage ==
           Percentage(locations[f.isoA2], locations[TotalKey])
      && Consistent(colors, ProcessedAll(colors, cc, features, locations)[f.isoA2])
  {
    if features != [] {
      var init, last := features[..|features| - 1], features[|features| - 1];
      ProcessedAllRecords(colors, cc, init, locations);
      var before := ProcessedAll(colors, cc, init, locations);
      var after := Processed(colors, before, last, locations);
      assert after == ProcessedAll(colors, cc, features, locations);
      forall f | f in features && Counted(f, locations)
        ensures f.isoA2 in after
        ensures after[f.isoA2].decalage == Percentage(locations[f.isoA2], locations[TotalKey])
        ensures Consistent(colors, after[f.isoA2])
      {
        if f.isoA2 != last.isoA2 {
          assert features == init + [last];
          assert f in init;
        }
      }
    }
  }

  /** A code that no counted feature carries keeps the record it had before
      loading: the loop never clears the dictionary. */
  lemma {:induction false} ProcessedAllUntouched(colors: seq<ColorEntry>, cc: map<string, CountryRecord>,
                                                 features: seq<Feature>, locations: Locations, k: string)
    requires Ready(colors) && HasTotal(locations) && k in cc
    requires forall f :: f in features && Counted(f, locations) ==> f.isoA2 != k
    ensures k in ProcessedAll(colors, cc, features, locations)
    ensures ProcessedAll(colors, cc, features, locations)[k] == cc[k]
  {
    if features != [] {
      var init := features[..|features| - 1];
      assert forall f :: f in init ==> f in features;
      ProcessedAllUntouched(colors, cc, init, locations, k);
    }
  }

  /** The record of a code is the one written for the last counted feature
      carrying it: its percentage, colour and name. */
  lemma {:induction false} ProcessedAllLast(colors: seq<ColorEntry>, cc: map<string, CountryRecord>,
                                            features: seq<Feature>, locations: Locations, j: nat)
    requires Ready(colors) && HasTotal(locations)
    requires j < |features| && Counted(features[j], locations)
    requires forall i :: j < i < |features| && Counted(features[i], locations) ==>
      features[i].isoA2 != features[j].isoA2
    ensures features[j].isoA2 in ProcessedAll(colors, cc, features, locations)
    ensures ProcessedAll(colors, cc, features, locations)[features[j].isoA2] ==
      RecordFor(colors, features[j], locations)
  {
    var n := |features|;
    if j < n - 1 {
      var init := features[..n - 1];
      assert forall i :: j < i < |init| ==> init[i] == features[i];
      ProcessedAllLast(colors, cc, init, locations, j);
    }
  }

  /** The state `index.js` keeps at module level while drawing the map. */
  class MapState {
    const colors: seq<ColorEntry>
    var countryColors: map<string, CountryRecord>
    var source: seq<Feature>

    ghost predicate Valid()
      reads this
    {
      Ready(colors) && AllConsistent(colors, countryColors)
    }

    /** Both the dictionary and the source start empty. */
    constructor (ramp: seq<string>)
      requires |ramp| == NShades
      ensures Valid()
      ensures colors == Colors(ramp) && countryColors == map[] && source == []
    {
      colors := Colors(ramp);
      countryColors := map[];
      source := [];
    }

    /** Records one feature's colour, percentage and name and adds it to the
        source, unless it has no count or is the skipped code. */
    method ProcessFeature(feature: Feature, locations: Locations)
      requires Valid() && HasTotal(locations)
      modifies this
      ensures Valid()
      ensures countryColors == Processed(colors, old(countryColors), feature, locations)
      ensures source == old(source) + (if Counted(feature, locations) then [feature] else [])
    {
      if feature.isoA2 !in locations || feature.isoA2 == SkippedCode {
        return;
      }
      var data := locations[feature.isoA2];
      var decalage := Percentage(data, locations[TotalKey]);
      ProcessedConsistent(colors, countryColors, feature, locations);
      countryColors := countryColors[feature.isoA2 :=
        CountryRecord(GetColor(colors, decalage, 0), decalage, feature.name)];
      source := source + [feature];
    }

    /** Clears the source and processes every feature read from the map
        data, in order. The dictionary is not cleared. */
    method LoadFeatures(features: seq<Feature>, locations: Locations)
      requires Valid() && HasTotal(locations)
      modifies this
      ensures Valid()
      ensures source == Kept(features, locations)
      ensures countryColors == ProcessedAll(colors, old(countryColors), features, locations)
    {
      source := [];
      for j := 0 to |features|
        invariant Valid()
        invariant source == Kept(features[..j], locations)
        invariant countryColors == ProcessedAll(colors, old(countryColors), features[..j], locations)
      {
        assert features[..j + 1][..j] == features[..j];
        ProcessFeature(features[j], locations);
      }
      assert features[..|features|] == features;
    }
  }

  /** A key whose record carries a name. */
  predicate Named(key: string, cc: map<string, CountryRecord>) {
    key in cc && cc[key].name.Some?
  }

  /** The chart label of one key of the counts. */
  function Label(key: string, cc: map<string, CountryRecord>): string {
    if Named(key, cc) then cc[key].name.value
    else if key == UnknownCode then UnknownName
    else key
  }

  /** The bar-chart labels, one per key of the counts in the order given: the
      country's name when it was recorded, "Unknown Territory" for "ZZ",
      otherwise the raw key. */
  function ChartLabels(keys: seq<string>, cc: map<string, CountryRecord>): (labels: seq<string>)
    ensures |labels| == |keys|
    ensures forall j :: 0 <= j < |keys| && Named(keys[j], cc) ==>
      labels[j] == cc[keys[j]].name.value
    ensures forall j :: 0 <= j < |keys| && !Named(keys[j], cc) && keys[j] == UnknownCode ==>
      labels[j] == UnknownName
    ensures forall j :: 0 <= j < |keys| && !Named(keys[j], cc) && keys[j] != UnknownCode ==>
      labels[j] == keys[j]
  {
    if keys == [] then [] else [Label(keys[0], cc)] + ChartLabels(keys[1..], cc)
  }

  /** Once a named feature is processed its country is labelled with that
      name; the labels of all other keys are unchanged. */
  lemma LabelAfterProcess(colors: seq<ColorEntry>, cc: map<string, CountryRecord>,
                          feature: Feature, locations: Locations, key: string)
    requires Ready(colors) && HasTotal(locations)
    ensures Counted(feature, locations) && feature.name.Some? ==>
      Label(feature.isoA2, Processed(colors, cc, feature, locations)) == feature.name.value
    ensures key != feature.isoA2 ==>
      Label(key, Processed(colors, cc, feature, locations)) == Label(key, cc)
  {
  }
}
