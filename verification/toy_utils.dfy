/** Parsing and prettifying the names used by the toy-model analysis: hook keys
    such as "blocks.2.attn.codebook_layer.codebook.1.hook_codebook_ids" and
    patching strings such as "l0,l3_attn_mlp". */
module ToyUtils {
  import opened Errors
  import opened Decimal
  import opened Strings

  /** Layer, component, and head (only for attention codebooks) of a hook key. */
  datatype HookInfo = HookInfo(layer: int, component: string, head: Option<int>)

  /** `get_codebook_info_from_hook_key`: the 2nd `.`-field is the layer, the 3rd
      the component and, for "attn", the 6th the head. A missing field raises
      IndexError and a non-integer one ValueError, in the order they are read. */
  function CodebookInfoFromHookKey(key: string): (r: Result<HookInfo>)
    ensures var parts := Split(key, '.');
      && (|parts| < 2 ==> r == Err(IndexError))
      && (|parts| >= 2 && ParseInt(parts[1]).Err? ==> r == Err(ValueError))
      && (|parts| >= 2 && ParseInt(parts[1]).Ok? && |parts| < 3 ==> r == Err(IndexError))
      && (|parts| >= 3 && ParseInt(parts[1]).Ok? && parts[2] != "attn" ==>
            r == Ok(HookInfo(ParseInt(parts[1]).value, parts[2], None)))
      && (|parts| >= 3 && ParseInt(parts[1]).Ok? && parts[2] == "attn" && |parts| < 6 ==> r == Err(IndexError))
      && (|parts| >= 6 && ParseInt(parts[1]).Ok? && parts[2] == "attn" && ParseInt(parts[5]).Err? ==>
            r == Err(ValueError))
      && (|parts| >= 6 && ParseInt(parts[1]).Ok? && parts[2] == "attn" && ParseInt(parts[5]).Ok? ==>
            r == Ok(HookInfo(ParseInt(parts[1]).value, parts[2], Some(ParseInt(parts[5]).value))))
  {
    var parts := Split(key, '.');
    if |parts| < 2 then Err(IndexError)
    else
      var layer :- ParseInt(parts[1]);
      if |parts| < 3 then Err(IndexError)
      else if parts[2] == "attn" then
        if |parts| < 6 then Err(IndexError)
        else
          var head :- ParseInt(parts[5]);
          Ok(HookInfo(layer, parts[2], Some(head)))
      else Ok(HookInfo(layer, parts[2], None))
  }

  predicate NoDots(fields: seq<string>)
  {
    forall k :: 0 <= k < |fields| ==> '.' !in fields[k]
  }

  /** A key assembled from dot-free fields with the layer at field 2 and, for an
      attention codebook, the head at field 6 reads back as those numbers. */
  lemma HookKeyRoundTrip(prefix: string, layer: nat, component: string, rest: seq<string>, head: nat)
    requires NoDots([prefix, component] + rest)
    requires component == "attn" ==> |rest| >= 3 && rest[2] == NatToStr(head)
    ensures CodebookInfoFromHookKey(Join([prefix, NatToStr(layer), component] + rest, "."))
         == Ok(HookInfo(layer, component, if component == "attn" then Some(head) else None))
  {
    var fields := [prefix, NatToStr(layer), component] + rest;
    FieldsHaveNoDots(prefix, layer, component, rest);
    SplitJoin(fields, '.');
    var parts := Split(Join(fields, "."), '.');
    assert parts == fields;
    assert parts[1] == NatToStr(layer) && parts[2] == component;
    ParseIntOfNatToStr(layer);
    if component == "attn" {
      assert parts[5] == rest[2];
      ParseIntOfNatToStr(head);
    }
  }

  lemma FieldsHaveNoDots(prefix: string, layer: nat, component: string, rest: seq<string>)
    requires NoDots([prefix, component] + rest)
    ensures NoDots([prefix, NatToStr(layer), component] + rest)
  {
    var fields := [prefix, NatToStr(layer), component] + rest;
    assert forall c :: c in NatToStr(layer) ==> IsDigit(c);
    forall k | 0 <= k < |fields|
      ensures '.' !in fields[k]
    {
      if k >= 3 {
        assert fields[k] == ([prefix, component] + rest)[k - 1];
      } else if k == 2 {
        assert fields[k] == ([prefix, component] + rest)[1];
      } else if k == 0 {
        assert fields[k] == ([prefix, component] + rest)[0];
      }
    }
  }

  /** `s[1:]`: everything after the first character; empty stays empty. */
  function DropFirst(s: string): (t: string)
    ensures |s| > 0 ==> s == [s[0]] + t
    ensures |s| == 0 ==> t == ""
  {
    if |s| == 0 then "" else s[1..]
  }

  /** The comma-separated layer items: the text before the first '_'. */
  function LayerItems(patching: string): seq<string>
  {
    Split(Split(patching, '_')[0], ',')
  }

  /** Each layer item without its first character. */
  function LayerNumbers(patching: string): (r: seq<string>)
    ensures |r| == |LayerItems(patching)|
    ensures forall k :: 0 <= k < |r| ==> r[k] == DropFirst(LayerItems(patching)[k])
  {
    var items := LayerItems(patching);
    seq(|items|, k requires 0 <= k < |items| => DropFirst(items[k]))
  }

  /** `get_layers_from_patching_str`: each layer item, without its first
      character, as an integer. */
  function LayersFromPatchingStr(patching: string): (r: Result<seq<int>>)
    ensures r.Ok? <==> forall k :: 0 <= k < |LayerItems(patching)| ==> ParseInt(DropFirst(LayerItems(patching)[k])).Ok?
    ensures r.Ok? ==> |r.value| == |LayerItems(patching)|
    ensures r.Ok? ==> forall k :: 0 <= k < |r.value| ==> ParseInt(DropFirst(LayerItems(patching)[k])) == Ok(r.value[k])
    ensures r.Err? ==> r.error == ValueError
  {
    ParseInts(LayerNumbers(patching))
  }

  /** The layer item "l<n>" for each layer. */
  function LayerNames(layers: seq<nat>): (items: seq<string>)
    ensures |items| == |layers|
    ensures forall k :: 0 <= k < |layers| ==> items[k] == "l" + NatToStr(layers[k])
  {
    seq(|layers|, k requires 0 <= k < |layers| => "l" + NatToStr(layers[k]))
  }

  /** Characters of a join come from the pieces or the separator. */
  lemma {:induction false} JoinAvoids(parts: seq<string>, sep: string, c: char)
    requires c !in sep && forall k :: 0 <= k < |parts| ==> c !in parts[k]
    ensures c !in Join(parts, sep)
    decreases |parts|
  {
    if |parts| > 1 {
      JoinAvoids(parts[1..], sep, c);
    }
  }

  /** Text cut at the first '_' of `head + "_" + tail` is `head` when `head` has none. */
  lemma BeforeUnderscore(head: string, tail: string)
    requires '_' !in head
    ensures Split(head + "_" + tail, '_')[0] == head
  {
    assert head + "_" + tail == head + ("_" + tail);
    SplitPrefix(head, "_" + tail, '_');
    assert ("_" + tail)[0] == '_' && ("_" + tail)[1..] == tail;
  }

  /** Writing layers as "l<n>" items joined by ',' and appending any "_..."
      suffix reads back as those layers. */
  lemma LayersRoundTrip(layers: seq<nat>, suffix: string)
    requires |layers| >= 1
    ensures LayersFromPatchingStr(Join(LayerNames(layers), ",") + "_" + suffix) == Ok(layers)
  {
    var items := LayerNames(layers);
    forall k | 0 <= k < |items|
      ensures ',' !in items[k] && '_' !in items[k]
    {
      assert forall c :: c in NatToStr(layers[k]) ==> IsDigit(c);
    }
    var j := Join(items, ",");
    JoinAvoids(items, ",", '_');
    BeforeUnderscore(j, suffix);
    SplitJoin(items, ',');
    assert LayerItems(j + "_" + suffix) == items;
    forall k | 0 <= k < |items|
      ensures ParseInt(DropFirst(items[k])) == Ok(layers[k] as int)
    {
      assert DropFirst(items[k]) == NatToStr(layers[k]);
      ParseIntOfNatToStr(layers[k]);
    }
    var r := LayersFromPatchingStr(j + "_" + suffix);
    assert r.Ok? && |r.value| == |layers|;
    assert forall k :: 0 <= k < |layers| ==> r.value[k] == layers[k];
    assert r.value == layers;
  }

  /** "l0,l3_attn" names layers 0 and 3. */
  lemma LayersExample()
    ensures LayersFromPatchingStr("l0,l3_attn") == Ok([0, 3])
  {
    LayersRoundTrip([0, 3], "attn");
    ExampleNames();
    ExampleText();
  }

  lemma ExampleNames()
    ensures LayerNames([0, 3]) == ["l0", "l3"]
  {
    var names := LayerNames([0, 3]);
    assert NatToStr(0) == "0" && NatToStr(3) == "3";
    assert names[0] == "l" + "0" == "l0";
    assert names[1] == "l" + "3" == "l3";
  }

  lemma ExampleText()
    ensures Join(["l0", "l3"], ",") + "_" + "attn" == "l0,l3_attn"
  {
    assert ["l0", "l3"][1..] == ["l3"];
  }

  /** A layer item cleaned: "l" becomes "L", and then "aLL" becomes "All".
      Both replacements keep the length; an item without 'a' just has every 'l'
      upper-cased. */
  function CleanLayerItem(item: string): (r: string)
    ensures |r| == |item|
    ensures 'a' !in item ==> forall i :: 0 <= i < |item| ==> r[i] == if item[i] == 'l' then 'L' else item[i]
  {
    var upper := ReplaceAll(item, "l", "L");
    if 'a' !in item then
      ReplaceChar(item, 'l', 'L');
      assert forall i :: 0 <= i < |upper| ==> upper[i] != 'a';
      ReplaceAbsent(upper, "aLL", "All");
      ReplaceAll(upper, "aLL", "All")
    else
      ReplaceAll(upper, "aLL", "All")
  }

  /** A component item cleaned: "attn" becomes "Attn", then "mlp" becomes "MLP".
      Both replacements keep the length; an item with neither 'a' nor 'm' is kept. */
  function CleanComponentItem(item: string): (r: string)
    ensures |r| == |item|
    ensures 'a' !in item && 'm' !in item ==> r == item
  {
    if 'a' !in item && 'm' !in item then
      ReplaceAbsent(item, "attn", "Attn");
      ReplaceAbsent(item, "mlp", "MLP");
      ReplaceAll(ReplaceAll(item, "attn", "Attn"), "mlp", "MLP")
    else
      ReplaceAll(ReplaceAll(item, "attn", "Attn"), "mlp", "MLP")
  }

  function MapClean(items: seq<string>, layer: bool): (r: seq<string>)
    ensures |r| == |items|
    ensures forall k :: 0 <= k < |items| ==> r[k] == if layer then CleanLayerItem(items[k]) else CleanComponentItem(items[k])
  {
    seq(|items|, k requires 0 <= k < |items| => if layer then CleanLayerItem(items[k]) else CleanComponentItem(items[k]))
  }

  lemma NoComponentsWithoutUnderscore(patching: string)
    ensures '_' !in patching ==> Split(patching, '_') == [patching]
  {
    if '_' !in patching {
      SplitJoin([patching], '_');
    }
  }

  /** `clean_patching_name`: the cleaned layer items joined by ", ", a space,
      then the cleaned components (the '_'-fields after the first) joined by ", ". */
  function CleanPatchingName(patching: string): (r: string)
    ensures patching == "none" ==> r == "None"
    ensures patching != "none" && '_' !in patching ==> |r| >= 1 && r[|r| - 1] == ' '
  {
    if patching == "none" then "None"
    else
      var parts := Split(patching, '_');
      NoComponentsWithoutUnderscore(patching);
      Join(MapClean(LayerItems(patching), true), ", ") + " " + Join(MapClean(parts[1..], false), ", ")
  }

  /** A numbered layer item "l<n>" becomes "L<n>". */
  lemma CleanNumberedLayer(n: nat)
    ensures CleanLayerItem("l" + NatToStr(n)) == "L" + NatToStr(n)
  {
    var d := NatToStr(n);
    assert forall i :: 0 <= i < |d| ==> d[i] != 'l' && d[i] != 'a';
    var item := "l" + d;
    assert "l" <= item && item[1..] == d;
    ReplaceAbsent(d, "l", "L");
    var upper := "L" + d;
    assert forall i :: 0 <= i < |upper| ==> upper[i] != 'a';
    ReplaceAbsent(upper, "aLL", "All");
  }

  /** "all" becomes "All": "l" is replaced first, which makes "aLL". */
  lemma CleanAllLayers()
    ensures CleanLayerItem("all") == "All"
  {
    assert ReplaceAll("all", "l", "L") == "aLL" by {
      assert "all"[0] == 'a' && "all"[1..] == "ll";
      assert "l" <= "ll" && "ll"[1..] == "l";
      assert "l" <= "l" && "l"[1..] == "";
    }
    assert "aLL" <= "aLL" && "aLL"[3..] == "";
  }

  /** The two component names are capitalised. */
  lemma CleanComponents()
    ensures CleanComponentItem("attn") == "Attn"
    ensures CleanComponentItem("mlp") == "MLP"
  {
    assert "attn" <= "attn" && "attn"[4..] == "";
    ReplaceAbsent("Attn", "mlp", "MLP");
    ReplaceAbsent("mlp", "attn", "Attn");
    assert "mlp" <= "mlp" && "mlp"[3..] == "";
  }

  /** `clean_patching_name` of a name assembled from comma-free layer items and
      component fields: the items are cleaned one by one and keep their number
      and order. */
  lemma CleanPatchingNameOfParts(layers: seq<string>, components: seq<string>)
    requires |layers| >= 1
    requires forall k :: 0 <= k < |layers| ==> ',' !in layers[k] && '_' !in layers[k]
    requires forall k :: 0 <= k < |components| ==> '_' !in components[k]
    requires Join([Join(layers, ",")] + components, "_") != "none"
    ensures CleanPatchingName(Join([Join(layers, ",")] + components, "_"))
         == Join(MapClean(layers, true), ", ") + " " + Join(MapClean(components, false), ", ")
  {
    var head := Join(layers, ",");
    var fields := [head] + components;
    JoinAvoids(layers, ",", '_');
    assert forall k :: 0 <= k < |fields| ==> '_' !in fields[k] by {
      forall k | 0 <= k < |fields|
        ensures '_' !in fields[k]
      {
        if k > 0 {
          assert fields[k] == components[k - 1];
        }
      }
    }
    SplitJoin(fields, '_');
    assert fields[1..] == components;
    SplitJoin(layers, ',');
    assert LayerItems(Join(fields, "_")) == layers;
  }

  /** "l0,l3_attn" reads as "L0, L3 Attn". */
  lemma CleanNameExample()
    ensures CleanPatchingName("l0,l3_attn") == "L0, L3 Attn"
  {
    ExampleParts();
    CleanPatchingNameOfParts(["l0", "l3"], ["attn"]);
    CleanExampleItems();
  }

  lemma ExampleParts()
    ensures Join([Join(["l0", "l3"], ",")] + ["attn"], "_") == "l0,l3_attn"
  {
    ExampleText();
    var fields := [Join(["l0", "l3"], ",")] + ["attn"];
    assert fields[1..] == ["attn"];
  }

  lemma CleanExampleItems()
    ensures Join(MapClean(["l0", "l3"], true), ", ") + " " + Join(MapClean(["attn"], false), ", ") == "L0, L3 Attn"
  {
    CleanExampleLayers();
    CleanComponents();
    assert MapClean(["l0", "l3"], true) == ["L0", "L3"];
    assert MapClean(["attn"], false) == ["Attn"];
    JoinTwo("L0", "L3", ", ");
    assert Join(["Attn"], ", ") == "Attn";
    ExampleLiteral();
  }

  lemma ExampleLiteral()
    ensures "L0" + ", " + "L3" + " " + "Attn" == "L0, L3 Attn"
  {
    assert "L0" + ", " == "L0, ";
    assert "L0, " + "L3" == "L0, L3";
    assert "L0, L3" + " " == "L0, L3 ";
  }

  lemma JoinTwo(a: string, b: string, sep: string)
    ensures Join([a, b], sep) == a + sep + b
  {
    assert [a, b][1..] == [b];
  }

  lemma CleanExampleLayers()
    ensures CleanLayerItem("l0") == "L0" && CleanLayerItem("l3") == "L3"
  {
    assert NatToStr(0) == "0" && NatToStr(3) == "3";
    CleanNumberedLayer(0);
    CleanNumberedLayer(3);
    assert "l" + "0" == "l0" && "l" + "3" == "l3";
    assert "L" + "0" == "L0" && "L" + "3" == "L3";
  }
}
