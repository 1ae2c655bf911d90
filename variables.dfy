/** The caller-facing variable labels and the provider field names they stand
    for, under hourly and under daily resolution, with the translation in both
    directions. */
module Variables {
  import opened Wrappers
  import opened Text

  /** The labels in the order the dashboard lists them (both maps use it). */
  const Labels: seq<string> := [
    "Temperature (°C)",
    "Relative Humidity (%)",
    "Precipitation (mm)",
    "Wind Speed (m/s)",
    "Wind Gusts (m/s)",
    "Surface Pressure (hPa)",
    "Cloud Cover (%)"
  ]

  const HourlyMap: map<string, string> := map[
    "Temperature (°C)" := "temperature_2m",
    "Relative Humidity (%)" := "relative_humidity_2m",
    "Precipitation (mm)" := "precipitation",
    "Wind Speed (m/s)" := "wind_speed_10m",
    "Wind Gusts (m/s)" := "wind_gusts_10m",
    "Surface Pressure (hPa)" := "pressure_msl",
    "Cloud Cover (%)" := "cloudcover"
  ]

  const DailyMap: map<string, string> := map[
    "Temperature (°C)" := "temperature_2m_mean",
    "Relative Humidity (%)" := "relative_humidity_2m_mean",
    "Precipitation (mm)" := "precipitation_sum",
    "Wind Speed (m/s)" := "wind_speed_10m_max",
    "Wind Gusts (m/s)" := "wind_gusts_10m_max",
    "Surface Pressure (hPa)" := "surface_pressure_mean",
    "Cloud Cover (%)" := "cloud_cover_mean"
  ]

  // ---------------------------------------------------------------- label -> field

  /** The selected labels that the map knows, in selection order. */
  function KnownLabels(selected: seq<string>, mapping: map<string, string>): (known: seq<string>)
    ensures forall i :: 0 <= i < |known| ==> known[i] in mapping && known[i] in selected
  {
    if selected == [] then []
    else
      var n := |selected| - 1;
      KnownLabels(selected[..n], mapping) + if selected[n] in mapping then [selected[n]] else []
  }

  /** Every selected label the map knows is kept. */
  lemma {:induction false} KnownLabelsComplete(selected: seq<string>, mapping: map<string, string>)
    ensures forall v :: v in selected && v in mapping ==> v in KnownLabels(selected, mapping)
  {
    if selected != [] {
      var n := |selected| - 1;
      KnownLabelsComplete(selected[..n], mapping);
      assert selected == selected[..n] + [selected[n]];
    }
  }

  /** The filter works element by element, so the known labels keep the selection order. */
  lemma {:induction false} KnownLabelsAppend(a: seq<string>, b: seq<string>, mapping: map<string, string>)
    ensures KnownLabels(a + b, mapping) == KnownLabels(a, mapping) + KnownLabels(b, mapping)
  {
    if b == [] {
      assert a + b == a;
    } else {
      var n := |b| - 1;
      var tail := if b[n] in mapping then [b[n]] else [];
      calc {
        KnownLabels(a + b, mapping);
        { assert (a + b)[..|a + b| - 1] == a + b[..n]; }
        KnownLabels(a + b[..n], mapping) + tail;
        { KnownLabelsAppend(a, b[..n], mapping); }
        KnownLabels(a, mapping) + KnownLabels(b[..n], mapping) + tail;
        KnownLabels(a, mapping) + KnownLabels(b, mapping);
      }
    }
  }

  /** `[MAP[v] for v in show_vars if v in MAP]`. */
  function ProviderFields(selected: seq<string>, mapping: map<string, string>): (fields: seq<string>)
    ensures |fields| == |KnownLabels(selected, mapping)|
    ensures forall i :: 0 <= i < |fields| ==>
              fields[i] == mapping[KnownLabels(selected, mapping)[i]]
  {
    if selected == [] then []
    else
      var n := |selected| - 1;
      ProviderFields(selected[..n], mapping) +
        if selected[n] in mapping then [mapping[selected[n]]] else []
  }

  lemma ProviderFieldsSnoc(selected: seq<string>, v: string, mapping: map<string, string>)
    ensures ProviderFields(selected + [v], mapping) ==
              ProviderFields(selected, mapping) + if v in mapping then [mapping[v]] else []
  {
    assert (selected + [v])[..|selected|] == selected;
  }

  /** The filter works element by element, so it keeps the selection order. */
  lemma {:induction false} ProviderFieldsAppend(a: seq<string>, b: seq<string>, mapping: map<string, string>)
    ensures ProviderFields(a + b, mapping) == ProviderFields(a, mapping) + ProviderFields(b, mapping)
  {
    if b == [] {
      assert a + b == a;
    } else {
      var n := |b| - 1;
      var tail := if b[n] in mapping then [mapping[b[n]]] else [];
      calc {
        ProviderFields(a + b, mapping);
        { assert a + b == (a + b[..n]) + [b[n]]; }
        ProviderFields((a + b[..n]) + [b[n]], mapping);
        { ProviderFieldsSnoc(a + b[..n], b[n], mapping); }
        ProviderFields(a + b[..n], mapping) + tail;
        { ProviderFieldsAppend(a, b[..n], mapping); }
        ProviderFields(a, mapping) + ProviderFields(b[..n], mapping) + tail;
        { ProviderFieldsSnoc(b[..n], b[n], mapping); assert b[..n] + [b[n]] == b; }
        ProviderFields(a, mapping) + ProviderFields(b, mapping);
      }
    }
  }

  /** A label the map does not know contributes no field and disturbs nothing else. */
  lemma UnknownLabelDropped(a: seq<string>, unknown: string, b: seq<string>, mapping: map<string, string>)
    requires unknown !in mapping
    ensures ProviderFields(a + [unknown] + b, mapping) == ProviderFields(a + b, mapping)
  {
    ProviderFieldsAppend(a + [unknown], b, mapping);
    ProviderFieldsAppend(a, [unknown], mapping);
    ProviderFieldsAppend(a, b, mapping);
    assert [unknown][..0] == [];
  }

  /** When every selected label is known, the fields are the labels' images, in order. */
  lemma {:induction false} ProviderFieldsAllKnown(selected: seq<string>, mapping: map<string, string>)
    requires forall i :: 0 <= i < |selected| ==> selected[i] in mapping
    ensures |ProviderFields(selected, mapping)| == |selected|
    ensures forall i :: 0 <= i < |selected| ==> ProviderFields(selected, mapping)[i] == mapping[selected[i]]
  {
    AllKnown(selected, mapping);
  }

  lemma {:induction false} AllKnown(selected: seq<string>, mapping: map<string, string>)
    requires forall i :: 0 <= i < |selected| ==> selected[i] in mapping
    ensures KnownLabels(selected, mapping) == selected
  {
    if selected != [] {
      var n := |selected| - 1;
      AllKnown(selected[..n], mapping);
      assert selected == selected[..n] + [selected[n]];
    }
  }

  /** `_build_param_list`: the mapped names joined with commas; a label the map
      does not know is a `KeyError`, here `None`. */
  function BuildParamList(selected: seq<string>, mapping: map<string, string>): (r: Option<string>)
    ensures r.Some? <==> forall i :: 0 <= i < |selected| ==> selected[i] in mapping
  {
    match Lookups(selected, mapping)
    case None => None
    case Some(names) => Some(Join(names, ","))
  }

  /** `[mapping[v] for v in selected]`, stopping at the first missing key. */
  function Lookups(selected: seq<string>, mapping: map<string, string>): (r: Option<seq<string>>)
    ensures r.Some? <==> forall i :: 0 <= i < |selected| ==> selected[i] in mapping
    ensures r.Some? ==> |r.value| == |selected|
    ensures r.Some? ==> forall i :: 0 <= i < |selected| ==> r.value[i] == mapping[selected[i]]
  {
    if selected == [] then Some([])
    else if selected[0] !in mapping then None
    else
      match Lookups(selected[1..], mapping)
      case None => None
      case Some(rest) => Some([mapping[selected[0]]] + rest)
  }

  /** The parameter list splits back into the selected labels' field names. */
  lemma BuildParamListRoundTrip(selected: seq<string>, mapping: map<string, string>)
    requires |selected| >= 1
    requires forall i :: 0 <= i < |selected| ==> selected[i] in mapping && ',' !in mapping[selected[i]]
    ensures BuildParamList(selected, mapping).Some?
    ensures Split(BuildParamList(selected, mapping).value, ',') == Lookups(selected, mapping).value
    ensures forall i :: 0 <= i < |selected| ==>
              Split(BuildParamList(selected, mapping).value, ',')[i] == mapping[selected[i]]
  {
    SplitJoin(Lookups(selected, mapping).value, ',');
  }

  // ---------------------------------------------------------------- field -> label

  /** `{v: k for k, v in d.items()}` for a dictionary whose keys, in insertion
      order, are `labels`: later entries overwrite earlier ones. */
  function Inverse(labels: seq<string>, mapping: map<string, string>): map<string, string>
    requires forall i :: 0 <= i < |labels| ==> labels[i] in mapping
  {
    if labels == [] then map[]
    else
      var n := |labels| - 1;
      Inverse(labels[..n], mapping)[mapping[labels[n]] := labels[n]]
  }

  /** Only the listed labels' field names are inverted. */
  lemma {:induction false} InverseKeys(labels: seq<string>, mapping: map<string, string>, field: string)
    requires forall i :: 0 <= i < |labels| ==> labels[i] in mapping
    requires forall i :: 0 <= i < |labels| ==> mapping[labels[i]] != field
    ensures field !in Inverse(labels, mapping)
  {
    if labels != [] {
      var n := |labels| - 1;
      InverseKeys(labels[..n], mapping, field);
    }
  }

  /** No two of the labels share a field name. */
  predicate Injective(labels: seq<string>, mapping: map<string, string>)
    requires forall i :: 0 <= i < |labels| ==> labels[i] in mapping
  {
    forall i, j :: 0 <= i < j < |labels| ==> mapping[labels[i]] != mapping[labels[j]]
  }

  lemma {:induction false} InverseRoundTrip(labels: seq<string>, mapping: map<string, string>)
    requires forall i :: 0 <= i < |labels| ==> labels[i] in mapping
    requires Injective(labels, mapping)
    ensures forall i :: 0 <= i < |labels| ==>
              mapping[labels[i]] in Inverse(labels, mapping) &&
              Inverse(labels, mapping)[mapping[labels[i]]] == labels[i]
  {
    if labels != [] {
      var n := |labels| - 1;
      var init := labels[..n];
      assert Injective(init, mapping) by {
        forall i, j | 0 <= i < j < |init| ensures mapping[init[i]] != mapping[init[j]] {
          assert init[i] == labels[i] && init[j] == labels[j];
        }
      }
      InverseRoundTrip(init, mapping);
      forall i | 0 <= i < n
        ensures mapping[labels[i]] in Inverse(labels, mapping)
        ensures Inverse(labels, mapping)[mapping[labels[i]]] == labels[i]
      {
        assert init[i] == labels[i];
        assert mapping[labels[i]] != mapping[labels[n]];
      }
    }
  }

  /** `inv_map.get(x, x)`: a field name the inverse does not know stays as it is. */
  function Relabel(inv: map<string, string>, field: string): string
  {
    if field in inv then inv[field] else field
  }

  /** `inv_map` as written: the inverse of `{**HOURLY_MAP, **DAILY_MAP}`. The
      two maps have the same keys, so the merged dictionary holds only the daily
      field names, and only those are inverted. */
  const InvMapAsWritten: map<string, string> := Inverse(Labels, HourlyMap + DailyMap)

  /** The inverse of both maps, as the relabelling evidently intends. */
  const InvMap: map<string, string> := Inverse(Labels, HourlyMap) + Inverse(Labels, DailyMap)

  /** The hourly temperature field is not relabelled by the inverse as written. */
  lemma InvMapAsWrittenMissesHourly()
    ensures Relabel(InvMapAsWritten, HourlyMap["Temperature (°C)"]) == "temperature_2m"
    ensures Relabel(InvMapAsWritten, HourlyMap["Temperature (°C)"]) != "Temperature (°C)"
  {
    var merged := HourlyMap + DailyMap;
    assert merged == DailyMap;
    InverseKeys(Labels, merged, "temperature_2m");
  }

  lemma MapsCoverLabels()
    ensures forall i :: 0 <= i < |Labels| ==> Labels[i] in HourlyMap && Labels[i] in DailyMap
    ensures HourlyMap.Keys == DailyMap.Keys
    ensures forall key :: key in HourlyMap ==> exists i :: 0 <= i < |Labels| && Labels[i] == key
  {
    forall key | key in HourlyMap ensures exists i :: 0 <= i < |Labels| && Labels[i] == key {
      if key == Labels[0] {
      } else if key == Labels[1] {
      } else if key == Labels[2] {
      } else if key == Labels[3] {
      } else if key == Labels[4] {
      } else if key == Labels[5] {
      } else {
        assert key == Labels[6];
      }
    }
  }

  lemma HourlyFieldsDistinct()
    ensures forall i :: 0 <= i < |Labels| ==> Labels[i] in HourlyMap
    ensures Injective(Labels, HourlyMap)
  {
    var fields := ["temperature_2m", "relative_humidity_2m", "precipitation", "wind_speed_10m",
                   "wind_gusts_10m", "pressure_msl", "cloudcover"];
    assert forall i :: 0 <= i < |Labels| ==> HourlyMap[Labels[i]] == fields[i];
  }

  lemma DailyFieldsDistinct()
    ensures forall i :: 0 <= i < |Labels| ==> Labels[i] in DailyMap
    ensures Injective(Labels, DailyMap)
  {
    var fields := ["temperature_2m_mean", "relative_humidity_2m_mean", "precipitation_sum",
                   "wind_speed_10m_max", "wind_gusts_10m_max", "surface_pressure_mean",
                   "cloud_cover_mean"];
    assert forall i :: 0 <= i < |Labels| ==> DailyMap[Labels[i]] == fields[i];
  }

  /** No hourly field name is also a daily one. */
  lemma FieldsDisjoint(key: string)
    requires key in HourlyMap
    ensures forall i :: 0 <= i < |Labels| ==> DailyMap[Labels[i]] != HourlyMap[key]
  {
  }

  /** Relabelling a provider field of either map gives back its label. */
  lemma InvMapRoundTrip(key: string)
    requires key in HourlyMap
    ensures Relabel(InvMap, HourlyMap[key]) == key
    ensures Relabel(InvMap, DailyMap[key]) == key
  {
    MapsCoverLabels();
    HourlyFieldsDistinct();
    DailyFieldsDistinct();
    InverseRoundTrip(Labels, HourlyMap);
    InverseRoundTrip(Labels, DailyMap);
    FieldsDisjoint(key);
    InverseKeys(Labels, DailyMap, HourlyMap[key]);
    var k :| 0 <= k < |Labels| && Labels[k] == key;
  }

  /** A column that is no provider field of either map keeps its name. */
  lemma UnknownFieldKept(field: string)
    requires forall i :: 0 <= i < |Labels| ==> HourlyMap[Labels[i]] != field && DailyMap[Labels[i]] != field
    ensures Relabel(InvMap, field) == field
  {
    MapsCoverLabels();
    InverseKeys(Labels, HourlyMap, field);
    InverseKeys(Labels, DailyMap, field);
  }

  /** Requesting the selected variables and relabelling the response columns gives
      back the known selected labels, in selection order, at either resolution. */
  lemma RelabelProviderFields(selected: seq<string>, hourly: bool)
    ensures var mapping := if hourly then HourlyMap else DailyMap;
            var fields := ProviderFields(selected, mapping);
            |fields| == |KnownLabels(selected, mapping)| &&
            forall i :: 0 <= i < |fields| ==> Relabel(InvMap, fields[i]) == KnownLabels(selected, mapping)[i]
  {
    var mapping := if hourly then HourlyMap else DailyMap;
    var known := KnownLabels(selected, mapping);
    MapsCoverLabels();
    forall i | 0 <= i < |known| ensures Relabel(InvMap, mapping[known[i]]) == known[i] {
      InvMapRoundTrip(known[i]);
    }
  }
}
