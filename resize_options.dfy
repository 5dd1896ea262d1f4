/**
 * The configuration `resize` derives from the option map: the resampling
 * filter named by `filter`, and the size named by the mandatory `size`,
 * either an absolute `WxH` pair of u32 values or a percentage.
 */
module ResizeOptions {
  import opened Wrappers
  import opened Strings
  import opened Failures

  /** The resampling filters of the image library that the tool can select. */
  datatype FilterKind = Nearest | Triangle | CatmullRom | Gaussian | Lanczos3

  /**
   * How each file is resized: to exactly `width` by `height`, or by the
   * percentage written in `percentage` (the text before the `%`; its
   * floating-point value is not modelled).
   */
  datatype SizeSpec = Absolute(width: U32, height: U32) | Scale(percentage: string)

  datatype ResizeConfig = ResizeConfig(size: SizeSpec, filter: FilterKind)

  /** The filter a `filter` value names; unknown names fall back to the default. */
  function FilterByName(name: string): (f: FilterKind)
    ensures f == Nearest <==> name == "nearest"
    ensures f == Triangle <==> name == "linear"
    ensures f == Gaussian <==> name == "gaussian"
    ensures f == Lanczos3 <==> name == "lanczos3"
    ensures f == CatmullRom <==> name !in {"nearest", "linear", "gaussian", "lanczos3"}
  {
    match name
    case "default" => CatmullRom
    case "nearest" => Nearest
    case "linear" => Triangle
    case "cubic" => CatmullRom
    case "gaussian" => Gaussian
    case "lanczos3" => Lanczos3
    case _ => CatmullRom
  }

  /** The filter for an option map: CatmullRom unless `filter` names another one. */
  function FilterOf(options: map<string, string>): (f: FilterKind)
    ensures "filter" !in options ==> f == CatmullRom
    ensures f != CatmullRom ==> "filter" in options && options["filter"] in {"nearest", "linear", "gaussian", "lanczos3"}
    ensures "filter" in options ==> f == FilterByName(options["filter"])
  {
    if "filter" in options then FilterByName(options["filter"]) else CatmullRom
  }

  /** The absolute size from the first two `x`-pieces, parsed in order: width first, then height. */
  function AbsoluteSize(pieces: seq<string>): (r: Result<SizeSpec, Panic>)
    requires |pieces| >= 1
    ensures r.Ok? ==> r.value.Absolute? && |pieces| >= 2
    ensures r.Ok? ==> ParseU32(pieces[0]) == Some(r.value.width) && ParseU32(pieces[1]) == Some(r.value.height)
    ensures r.Ok? <==> |pieces| >= 2 && ParseU32(pieces[0]).Some? && ParseU32(pieces[1]).Some?
    ensures ParseU32(pieces[0]).None? ==> r == Err(InvalidWidth(pieces[0]))
    ensures ParseU32(pieces[0]).Some? && |pieces| == 1 ==> r == Err(MissingHeight)
    ensures ParseU32(pieces[0]).Some? && |pieces| >= 2 && ParseU32(pieces[1]).None? ==> r == Err(InvalidHeight(pieces[1]))
  {
    match ParseU32(pieces[0])
    case None => Err(InvalidWidth(pieces[0]))
    case Some(w) =>
      if |pieces| < 2 then Err(MissingHeight)
      else
        match ParseU32(pieces[1])
        case None => Err(InvalidHeight(pieces[1]))
        case Some(h) => Ok(Absolute(w, h))
  }

  /**
   * The size an option map asks for. When the `x`-split of `size` does not
   * give two pieces and the value ends in `%`, the percentage branch is taken
   * and nothing else; otherwise the first two `x`-pieces are parsed as u32
   * width and height.
   */
  function SizeOf(options: map<string, string>): (r: Result<SizeSpec, Panic>)
    ensures r == Err(MissingSize) <==> "size" !in options
    ensures r.Ok? && r.value.Scale? ==>
      options["size"] == r.value.percentage + "%" && 'x' !in r.value.percentage
    ensures r.Ok? && r.value.Absolute? ==> 'x' in options["size"]
  {
    if "size" !in options then Err(MissingSize)
    else
      var value := options["size"];
      var pieces := Split(value, 'x');
      if |pieces| != 2 && EndsWith(value, '%') then
        var text := value[..|value| - 1];
        assert value == text + "%";
        if IsFloat(text) then
          FloatHasNoX(text);
          Ok(Scale(text))
        else Err(InvalidPercentage(text))
      else
        var r := AbsoluteSize(pieces);
        if r.Ok? then
          SplitCount(value, 'x');
          assert 'x' in multiset(value);
          r
        else r
  }

  /** The whole configuration; the filter never fails, so only the size can. */
  function Configure(options: map<string, string>): (r: Result<ResizeConfig, Panic>)
    ensures r.Ok? <==> SizeOf(options).Ok?
    ensures r.Ok? ==> r.value.size == SizeOf(options).value && r.value.filter == FilterOf(options)
    ensures SizeOf(options).Err? ==> r == Err(SizeOf(options).error)
  {
    var filter := FilterOf(options);
    match SizeOf(options)
    case Err(e) => Err(e)
    case Ok(size) => Ok(ResizeConfig(size, filter))
  }

  // ---------------------------------------------------------------------
  // The forms a `size` value can take
  // ---------------------------------------------------------------------

  /** `WxH` with one `x`: the two sides are parsed as u32, and a `%` plays no part. */
  lemma {:induction false} SizeTwoPieces(options: map<string, string>, w: string, h: string)
    requires 'x' !in w && 'x' !in h
    requires "size" in options && options["size"] == w + "x" + h
    ensures SizeOf(options) ==
      match (ParseU32(w), ParseU32(h))
      case (None, _) => Err(InvalidWidth(w))
      case (Some(_), None) => Err(InvalidHeight(h))
      case (Some(a), Some(b)) => Ok(Absolute(a, b))
  {
    assert w + "x" + h == w + ['x'] + h;
    SplitAt(w, 'x', h);
    SplitWithout(h, 'x');
  }

  /** Every pair of u32 values written as `WxH` gives back that absolute size. */
  lemma SizeRoundTrip(w: U32, h: U32)
    ensures SizeOf(map["size" := Decimal(w) + "x" + Decimal(h)]) == Ok(Absolute(w, h))
  {
    NoXInDigits(Decimal(w));
    NoXInDigits(Decimal(h));
    ParseDecimal(w);
    ParseDecimal(h);
    SizeTwoPieces(map["size" := Decimal(w) + "x" + Decimal(h)], Decimal(w), Decimal(h));
  }

  lemma NoXInDigits(s: string)
    requires AllDigits(s)
    ensures 'x' !in s
  {
  }

  /** A value with a `%` suffix and no `x`: the percentage branch, on the text before the `%`. */
  lemma SizePercentage(options: map<string, string>, text: string)
    requires 'x' !in text
    requires "size" in options && options["size"] == text + "%"
    ensures IsFloat(text) ==> SizeOf(options) == Ok(Scale(text))
    ensures !IsFloat(text) ==> SizeOf(options) == Err(InvalidPercentage(text))
  {
    var value := options["size"];
    assert 'x' !in value;
    SplitWithout(value, 'x');
    assert value[..|value| - 1] == text;
  }

  /**
   * Three or more `x`-pieces and no `%` suffix: the first two pieces are the
   * width and height and the rest is ignored.
   */
  lemma {:induction false} SizeManyPieces(options: map<string, string>, w: string, h: string, rest: string)
    requires 'x' !in w && 'x' !in h
    requires "size" in options && options["size"] == w + "x" + h + "x" + rest
    requires !EndsWith(options["size"], '%')
    ensures SizeOf(options) == AbsoluteSize([w, h])
    ensures SizeOf(options) ==
      match (ParseU32(w), ParseU32(h))
      case (None, _) => Err(InvalidWidth(w))
      case (Some(_), None) => Err(InvalidHeight(h))
      case (Some(a), Some(b)) => Ok(Absolute(a, b))
  {
    var value := options["size"];
    assert value == w + ['x'] + (h + ['x'] + rest);
    SplitAt(w, 'x', h + ['x'] + rest);
    SplitAt(h, 'x', rest);
    var pieces := Split(value, 'x');
    assert pieces[0] == w && pieces[1] == h;
  }

  /**
   * Two or more `x`s and a `%` suffix: the percentage branch, which then
   * fails with the percentage panic on the text before the `%`.
   */
  lemma SizeManyPiecesPercentage(options: map<string, string>)
    requires "size" in options
    requires multiset(options["size"])['x'] >= 2 && EndsWith(options["size"], '%')
    ensures SizeOf(options).Err?
    ensures SizeOf(options) == Err(InvalidPercentage(options["size"][..|options["size"]| - 1]))
  {
    var value := options["size"];
    SplitCount(value, 'x');
    var text := value[..|value| - 1];
    assert value == text + "%";
    assert multiset(value) == multiset(text) + multiset("%");
    if IsFloat(text) {
      FloatHasNoX(text);
    }
  }

  /** No `x` and no `%` suffix: the one piece is the width, and there is no height. */
  lemma SizeOnePiece(options: map<string, string>)
    requires "size" in options
    requires 'x' !in options["size"] && !EndsWith(options["size"], '%')
    ensures SizeOf(options) ==
      if ParseU32(options["size"]).None? then Err(InvalidWidth(options["size"])) else Err(MissingHeight)
  {
    SplitWithout(options["size"], 'x');
  }

  /** The default option, `128x128`. */
  lemma SizeDefaultExample()
    ensures SizeOf(map["size" := "128x128"]) == Ok(Absolute(128, 128))
  {
    assert Decimal(128) == "128";
    SizeRoundTrip(128, 128);
    assert Decimal(128) + "x" + Decimal(128) == "128x128";
  }

  lemma SizePercentageExample()
    ensures SizeOf(map["size" := "50%"]) == Ok(Scale("50"))
  {
    assert "50%" == "50" + "%";
    assert IsFloat("50") by {
      assert Lower("50") == "50";
      assert AllDigits("50");
    }
    SizePercentage(map["size" := "50%"], "50");
  }

  /** A `%` after an `x`-pair is not a percentage: the height `0%` fails to parse. */
  lemma SizePairWithPercentExample()
    ensures SizeOf(map["size" := "5x0%"]) == Err(InvalidHeight("0%"))
  {
    assert "5x0%" == "5" + "x" + "0%";
    assert ParseU32("0%") == None by {
      assert !IsDigit("0%"[1]);
    }
    SizeTwoPieces(map["size" := "5x0%"], "5", "0%");
  }

  lemma SizeThreePiecesExample()
    ensures SizeOf(map["size" := "1x2x3"]) == Ok(Absolute(1, 2))
  {
    assert "1x2x3" == "1" + "x" + "2" + "x" + "3";
    SizeManyPieces(map["size" := "1x2x3"], "1", "2", "3");
  }

  lemma SizeOnePieceExample()
    ensures SizeOf(map["size" := "128"]) == Err(MissingHeight)
  {
    assert Decimal(128) == "128";
    ParseDecimal(128);
    SizeOnePiece(map["size" := "128"]);
  }

  /** A missing `size` is an error whatever else the map holds, and any filter name is accepted. */
  lemma ConfigureMissingSize(options: map<string, string>)
    requires "size" !in options
    ensures Configure(options) == Err(MissingSize)
  {
  }

  lemma FilterExamples()
    ensures FilterOf(map[]) == CatmullRom
    ensures FilterOf(map["filter" := "default"]) == CatmullRom
    ensures FilterOf(map["filter" := "cubic"]) == CatmullRom
    ensures FilterOf(map["filter" := "Nearest"]) == CatmullRom
    ensures FilterOf(map["filter" := "nearest"]) == Nearest
    ensures FilterOf(map["filter" := "linear"]) == Triangle
  {
  }

  /** A `size` written as two u32 values `WxH` configures that absolute size, with the map's filter. */
  lemma ConfigureAbsolute(options: map<string, string>, w: U32, h: U32)
    requires "size" in options && options["size"] == Decimal(w) + "x" + Decimal(h)
    ensures Configure(options) == Ok(ResizeConfig(Absolute(w, h), FilterOf(options)))
  {
    NoXInDigits(Decimal(w));
    NoXInDigits(Decimal(h));
    ParseDecimal(w);
    ParseDecimal(h);
    SizeTwoPieces(options, Decimal(w), Decimal(h));
  }

  /** The options `size=200x100,filter=nearest` configure a 200 by 100 resize with the Nearest filter. */
  lemma ConfigureExample()
    ensures Configure(map["size" := "200x100", "filter" := "nearest"]) == Ok(ResizeConfig(Absolute(200, 100), Nearest))
  {
    var m := map["size" := "200x100", "filter" := "nearest"];
    assert Decimal(200) == "200";
    assert Decimal(100) == "100";
    assert m["size"] == Decimal(200) + "x" + Decimal(100);
    ConfigureAbsolute(m, 200, 100);
    assert FilterOf(m) == Nearest;
  }
}
