// The settings main() reads from its arguments (main.cpp): the defaults,
// the loop over argv that overwrites them, the recomputation of a zero
// height and the choice of renderer.

module CommandLine {
  import opened Options
  import opened Utils
  import opened NumberParsing

  datatype Settings = Settings(mode: string, filename: string, width: int, height: int, samples: int)

  /** mode "pt", output.ppm, 400 x 225, 100 samples per pixel. */
  const Defaults: Settings := Settings("pt", "output.ppm", 400, 225, 100)

  /** Why the arguments leave the program undefined: a filename read past
      the end of argv (a null pointer turned into a string), an atoi whose
      value does not fit an int, or a static_cast<int> of a double whose
      integer part does not fit an int. */
  datatype Undefined = NullFilename | AtoiOutOfRange | CastOutOfRange

  /** n is a value of a 32-bit int. */
  predicate Fits(n: int) { IntMin <= n <= IntMax }

  datatype Parsed = Ok(settings: Settings) | Fails(why: Undefined)

  /** 16 / 9 */
  const AspectRatio: real := 16.0 / 9.0

  /** static_cast<int>(width / (16.0 / 9.0)) */
  function HeightFor(width: int): int {
    Trunc(width as real / AspectRatio)
  }

  /** static_cast<int>(height * (16.0 / 9.0)) */
  function WidthFor(height: int): int {
    Trunc(height as real * AspectRatio)
  }

  predicate IsMode(arg: string) { arg == "-m" || arg == "--mode" }
  predicate IsWidth(arg: string) { arg == "-w" || arg == "--width" }
  predicate IsHeight(arg: string) { arg == "-h" || arg == "--height" }
  predicate IsSamples(arg: string) { arg == "-s" || arg == "--spp" }

  /** Whether the argument at i takes the filename from i + 1. As written,
      `arg == "-o" || arg == "--out" && i + 1 < argc` groups as
      `-o || (--out && i + 1 < argc)`, so -o takes it even in last
      position; guarded, both spellings need a next argument. */
  predicate TakesFilename(arg: string, hasNext: bool, guarded: bool) {
    if guarded then (arg == "-o" || arg == "--out") && hasNext
    else arg == "-o" || (arg == "--out" && hasNext)
  }

  /** The loop from index i on, with settings s so far. */
  function ParseFrom(argv: seq<string>, i: nat, s: Settings, guarded: bool): (r: Parsed)
    decreases |argv| - i
  {
    if |argv| <= i then Ok(s)
    else
      var arg := argv[i];
      var hasNext := i + 1 < |argv|;
      if IsMode(arg) && hasNext then ParseFrom(argv, i + 2, s.(mode := argv[i + 1]), guarded)
      else if TakesFilename(arg, hasNext, guarded) then
        if hasNext then ParseFrom(argv, i + 2, s.(filename := argv[i + 1]), guarded) else Fails(NullFilename)
      else if IsWidth(arg) && hasNext then
        match Atoi(argv[i + 1])
        case None => Fails(AtoiOutOfRange)
        case Some(w) => ParseFrom(argv, i + 2, s.(width := w, height := HeightFor(w)), guarded)
      else if IsHeight(arg) && hasNext then
        match Atoi(argv[i + 1])
        case None => Fails(AtoiOutOfRange)
        case Some(h) =>
          if Fits(WidthFor(h)) then ParseFrom(argv, i + 2, s.(height := h, width := WidthFor(h)), guarded)
          else Fails(CastOutOfRange)
      else if IsSamples(arg) && hasNext then
        match Atoi(argv[i + 1])
        case None => Fails(AtoiOutOfRange)
        case Some(n) => ParseFrom(argv, i + 2, s.(samples := n), guarded)
      else ParseFrom(argv, i + 1, s, guarded)
  }

  /** if (height == 0) height = int(width / (16/9)) */
  function FixHeight(s: Settings): (t: Settings)
    ensures t.mode == s.mode && t.filename == s.filename && t.width == s.width && t.samples == s.samples
    ensures s.height != 0 ==> t == s
  {
    if s.height == 0 then s.(height := HeightFor(s.width)) else s
  }

  /** The settings main() runs with, argv[0] being the program name. */
  function ReadSettings(argv: seq<string>, guarded: bool): Parsed {
    match ParseFrom(argv, 1, Defaults, guarded)
    case Fails(why) => Fails(why)
    case Ok(s) => Ok(FixHeight(s))
  }

  /** The argument loop of main, with the filename option guarded like
      the others. */
  method ParseArguments(argv: seq<string>) returns (r: Parsed)
    ensures r == ReadSettings(argv, true)
  {
    var mode, filename, width, height, samples := Defaults.mode, Defaults.filename, Defaults.width,
                                                  Defaults.height, Defaults.samples;
    var i := 1;
    while i < |argv|
      invariant 1 <= i
      invariant ParseFrom(argv, i, Settings(mode, filename, width, height, samples), true) ==
                ParseFrom(argv, 1, Defaults, true)
      decreases |argv| - i
    {
      var arg := argv[i];
      if IsMode(arg) && i + 1 < |argv| {
        i := i + 1;
        mode := argv[i];
      } else if (arg == "-o" || arg == "--out") && i + 1 < |argv| {
        i := i + 1;
        filename := argv[i];
      } else if IsWidth(arg) && i + 1 < |argv| {
        i := i + 1;
        var w := Atoi(argv[i]);
        if w.None? {
          return Fails(AtoiOutOfRange);
        }
        width := w.value;
        height := HeightFor(width);
      } else if IsHeight(arg) && i + 1 < |argv| {
        i := i + 1;
        var h := Atoi(argv[i]);
        if h.None? {
          return Fails(AtoiOutOfRange);
        }
        height := h.value;
        width := WidthFor(height);
        if !Fits(width) {
          return Fails(CastOutOfRange);
        }
      } else if IsSamples(arg) && i + 1 < |argv| {
        i := i + 1;
        var n := Atoi(argv[i]);
        if n.None? {
          return Fails(AtoiOutOfRange);
        }
        samples := n.value;
      }
      i := i + 1;
    }
    if height == 0 {
      height := HeightFor(width);
    }
    r := Ok(Settings(mode, filename, width, height, samples));
  }

  /** Without options main runs path tracing at 400 x 225 with 100
      samples, writing output.ppm. */
  lemma NoArguments(program: string, guarded: bool)
    ensures ReadSettings([program], guarded) == Ok(Defaults)
  {
  }

  /** A filename flag in last position: as written, -o reads past the end
      of argv; guarded, it is ignored like every other flag there. */
  lemma FilenameFlagLast(argv: seq<string>, s: Settings)
    requires 0 < |argv| && argv[|argv| - 1] == "-o"
    ensures ParseFrom(argv, |argv| - 1, s, false) == Fails(NullFilename)
    ensures ParseFrom(argv, |argv| - 1, s, true) == Ok(s)
  {
  }

  /** Guarded, no argument list reads past the end of argv. */
  lemma {:induction false} GuardedNeverNull(argv: seq<string>, i: nat, s: Settings)
    ensures ParseFrom(argv, i, s, true) != Fails(NullFilename)
    decreases |argv| - i
  {
    if i < |argv| {
      var arg := argv[i];
      var hasNext := i + 1 < |argv|;
      if IsMode(arg) && hasNext {
        GuardedNeverNull(argv, i + 2, s.(mode := argv[i + 1]));
      } else if TakesFilename(arg, hasNext, true) {
        GuardedNeverNull(argv, i + 2, s.(filename := argv[i + 1]));
      } else if (IsWidth(arg) || IsHeight(arg) || IsSamples(arg)) && hasNext {
        var n := Atoi(argv[i + 1]);
        if n.Some? {
          if IsWidth(arg) {
            GuardedNeverNull(argv, i + 2, s.(width := n.value, height := HeightFor(n.value)));
          } else if IsHeight(arg) {
            if Fits(WidthFor(n.value)) {
              GuardedNeverNull(argv, i + 2, s.(height := n.value, width := WidthFor(n.value)));
            }
          } else {
            GuardedNeverNull(argv, i + 2, s.(samples := n.value));
          }
        }
      } else {
        GuardedNeverNull(argv, i + 1, s);
      }
    }
  }

  /** The guard changes nothing else: where the as-written loop does not
      read past the end of argv, both give the same settings. */
  lemma {:induction false} GuardAgrees(argv: seq<string>, i: nat, s: Settings)
    requires ParseFrom(argv, i, s, false) != Fails(NullFilename)
    ensures ParseFrom(argv, i, s, true) == ParseFrom(argv, i, s, false)
    decreases |argv| - i
  {
    if i < |argv| {
      var arg := argv[i];
      var hasNext := i + 1 < |argv|;
      if IsMode(arg) && hasNext {
        GuardAgrees(argv, i + 2, s.(mode := argv[i + 1]));
      } else if TakesFilename(arg, hasNext, false) {
        GuardAgrees(argv, i + 2, s.(filename := argv[i + 1]));
      } else if (IsWidth(arg) || IsHeight(arg) || IsSamples(arg)) && hasNext {
        var n := Atoi(argv[i + 1]);
        if n.Some? {
          if IsWidth(arg) {
            GuardAgrees(argv, i + 2, s.(width := n.value, height := HeightFor(n.value)));
          } else if IsHeight(arg) {
            if Fits(WidthFor(n.value)) {
              GuardAgrees(argv, i + 2, s.(height := n.value, width := WidthFor(n.value)));
            }
          } else {
            GuardAgrees(argv, i + 2, s.(samples := n.value));
          }
        }
      } else {
        GuardAgrees(argv, i + 1, s);
      }
    }
  }

  /** The settings an option overwrites. */
  datatype Field = ModeField | FilenameField | SizeField | SamplesField

  /** s and t agree on every field but f. */
  predicate AgreeExcept(s: Settings, t: Settings, f: Field) {
    (f != ModeField ==> s.mode == t.mode) &&
    (f != FilenameField ==> s.filename == t.filename) &&
    (f != SizeField ==> s.width == t.width && s.height == t.height) &&
    (f != SamplesField ==> s.samples == t.samples)
  }

  /** The parse from i reaches an option that sets f, with its value. */
  predicate Sets(argv: seq<string>, i: nat, f: Field, guarded: bool)
    decreases |argv| - i
  {
    if |argv| <= i then false
    else
      var arg := argv[i];
      var hasNext := i + 1 < |argv|;
      if IsMode(arg) && hasNext then f == ModeField || Sets(argv, i + 2, f, guarded)
      else if TakesFilename(arg, hasNext, guarded) then hasNext && (f == FilenameField || Sets(argv, i + 2, f, guarded))
      else if (IsWidth(arg) || IsHeight(arg)) && hasNext then f == SizeField || Sets(argv, i + 2, f, guarded)
      else if IsSamples(arg) && hasNext then f == SamplesField || Sets(argv, i + 2, f, guarded)
      else Sets(argv, i + 1, f, guarded)
  }

  /** The last occurrence wins: once an option that sets f is still to
      come, the value f has now does not matter. */
  lemma {:induction false} LastOccurrenceWins(argv: seq<string>, i: nat, s: Settings, t: Settings, f: Field,
                                              guarded: bool)
    requires Sets(argv, i, f, guarded) && AgreeExcept(s, t, f)
    ensures ParseFrom(argv, i, s, guarded) == ParseFrom(argv, i, t, guarded)
    decreases |argv| - i
  {
    var arg := argv[i];
    var hasNext := i + 1 < |argv|;
    if IsMode(arg) && hasNext {
      var s', t' := s.(mode := argv[i + 1]), t.(mode := argv[i + 1]);
      if f != ModeField {
        LastOccurrenceWins(argv, i + 2, s', t', f, guarded);
      } else {
        assert s' == t';
      }
    } else if TakesFilename(arg, hasNext, guarded) {
      var s', t' := s.(filename := argv[i + 1]), t.(filename := argv[i + 1]);
      if f != FilenameField {
        LastOccurrenceWins(argv, i + 2, s', t', f, guarded);
      } else {
        assert s' == t';
      }
    } else if (IsWidth(arg) || IsHeight(arg) || IsSamples(arg)) && hasNext {
      var n := Atoi(argv[i + 1]);
      if n.Some? {
        var v := n.value;
        if IsWidth(arg) {
          var s', t' := s.(width := v, height := HeightFor(v)), t.(width := v, height := HeightFor(v));
          if f != SizeField {
            LastOccurrenceWins(argv, i + 2, s', t', f, guarded);
          } else {
            assert s' == t';
          }
        } else if IsHeight(arg) {
          var s', t' := s.(height := v, width := WidthFor(v)), t.(height := v, width := WidthFor(v));
          if !Fits(WidthFor(v)) {
          } else if f != SizeField {
            LastOccurrenceWins(argv, i + 2, s', t', f, guarded);
          } else {
            assert s' == t';
          }
        } else {
          var s', t' := s.(samples := v), t.(samples := v);
          if f != SamplesField {
            LastOccurrenceWins(argv, i + 2, s', t', f, guarded);
          } else {
            assert s' == t';
          }
        }
      }
    } else {
      LastOccurrenceWins(argv, i + 1, s, t, f, guarded);
    }
  }

  /** The value after a recognised option is consumed with it: wherever
      the option stands, the parse goes on at i + 2 with the value stored
      as it is, so a value that looks like an option (`-m -w` sets the mode
      to "-w") is never read as one. */
  lemma ValueNotInspected(argv: seq<string>, i: nat, s: Settings, guarded: bool)
    requires i + 1 < |argv|
    ensures IsMode(argv[i]) ==>
              ParseFrom(argv, i, s, guarded) == ParseFrom(argv, i + 2, s.(mode := argv[i + 1]), guarded)
    ensures argv[i] == "-o" || argv[i] == "--out" ==>
              ParseFrom(argv, i, s, guarded) == ParseFrom(argv, i + 2, s.(filename := argv[i + 1]), guarded)
    ensures IsWidth(argv[i]) && Atoi(argv[i + 1]).Some? ==>
              var w := Atoi(argv[i + 1]).value;
              ParseFrom(argv, i, s, guarded) == ParseFrom(argv, i + 2, s.(width := w, height := HeightFor(w)), guarded)
    ensures IsHeight(argv[i]) && Atoi(argv[i + 1]).Some? && Fits(WidthFor(Atoi(argv[i + 1]).value)) ==>
              var h := Atoi(argv[i + 1]).value;
              ParseFrom(argv, i, s, guarded) == ParseFrom(argv, i + 2, s.(height := h, width := WidthFor(h)), guarded)
    ensures IsSamples(argv[i]) && Atoi(argv[i + 1]).Some? ==>
              ParseFrom(argv, i, s, guarded) == ParseFrom(argv, i + 2, s.(samples := Atoi(argv[i + 1]).value), guarded)
    ensures (IsWidth(argv[i]) || IsHeight(argv[i]) || IsSamples(argv[i])) && Atoi(argv[i + 1]).None? ==>
              ParseFrom(argv, i, s, guarded) == Fails(AtoiOutOfRange)
  {
  }

  /** The value after an option is stored even when it is an option
      itself: `-m -w` runs in mode "-w" at the default size. */
  lemma OptionAsValue(program: string, value: string, guarded: bool)
    ensures ReadSettings([program, "-m", value], guarded) == Ok(Defaults.(mode := value))
  {
    var argv := [program, "-m", value];
    ValueNotInspected(argv, 1, Defaults, guarded);
  }

  /** -w 400 gives 400 x 225 and -h 225 gives 400 x 225: the two
      recomputations agree on widths that are multiples of 16. */
  lemma {:induction false} SizeRoundTrip(k: int)
    ensures HeightFor(16 * k) == 9 * k
    ensures WidthFor(9 * k) == 16 * k
  {
    assert (16 * k) as real / AspectRatio == (9 * k) as real;
    assert (9 * k) as real * AspectRatio == (16 * k) as real;
  }

  /** After the fix the height is 0 only for a width of -1, 0 or 1, the
      widths whose 9/16 truncates to 0. */
  lemma ZeroHeightOnlyForTinyWidth(s: Settings)
    ensures FixHeight(s).height == 0 <==> s.height == 0 && -1 <= s.width <= 1
  {
    if s.height == 0 {
      var x := s.width as real / AspectRatio;
      assert x == s.width as real * 9.0 / 16.0;
    }
  }

  /** Sizes and samples are ints, and the two sizes do not have opposite
      signs. */
  predicate WellSized(s: Settings) {
    Fits(s.width) && Fits(s.height) && Fits(s.samples) &&
    ((0 <= s.width && 0 <= s.height) || (s.width <= 0 && s.height <= 0))
  }

  /** int(w / (16/9)) fits an int and has the sign of w. */
  lemma HeightForFits(w: int)
    requires Fits(w)
    ensures Fits(HeightFor(w))
    ensures 0 <= w ==> 0 <= HeightFor(w)
    ensures w <= 0 ==> HeightFor(w) <= 0
  {
    var x := w as real / AspectRatio;
    assert x == w as real * 9.0 / 16.0;
  }

  /** int(h * 16/9) has the sign of h. */
  lemma WidthForSign(h: int)
    ensures 0 <= h ==> 0 <= WidthFor(h)
    ensures h <= 0 ==> WidthFor(h) <= 0
  {
    var x := h as real * AspectRatio;
    assert x == h as real * 16.0 / 9.0;
  }

  /** Every option keeps the sizes well formed. */
  lemma {:induction false} ParseKeepsSizes(argv: seq<string>, i: nat, s: Settings, guarded: bool)
    requires WellSized(s)
    ensures ParseFrom(argv, i, s, guarded).Ok? ==> WellSized(ParseFrom(argv, i, s, guarded).settings)
    decreases |argv| - i
  {
    if i < |argv| {
      var arg := argv[i];
      var hasNext := i + 1 < |argv|;
      if IsMode(arg) && hasNext {
        ParseKeepsSizes(argv, i + 2, s.(mode := argv[i + 1]), guarded);
      } else if TakesFilename(arg, hasNext, guarded) {
        if hasNext {
          ParseKeepsSizes(argv, i + 2, s.(filename := argv[i + 1]), guarded);
        }
      } else if (IsWidth(arg) || IsHeight(arg) || IsSamples(arg)) && hasNext {
        var n := Atoi(argv[i + 1]);
        if n.Some? {
          var v := n.value;
          if IsWidth(arg) {
            HeightForFits(v);
            ParseKeepsSizes(argv, i + 2, s.(width := v, height := HeightFor(v)), guarded);
          } else if IsHeight(arg) {
            if Fits(WidthFor(v)) {
              WidthForSign(v);
              ParseKeepsSizes(argv, i + 2, s.(height := v, width := WidthFor(v)), guarded);
            }
          } else {
            ParseKeepsSizes(argv, i + 2, s.(samples := v), guarded);
          }
        }
      } else {
        ParseKeepsSizes(argv, i + 1, s, guarded);
      }
    }
  }

  lemma ProductNonNegative(a: int, b: int)
    requires (0 <= a && 0 <= b) || (a <= 0 && b <= 0)
    ensures 0 <= a * b
  {
    if a <= 0 && b <= 0 {
      assert a * b == (-a) * (-b);
    }
  }

  /** Whatever the arguments, main renders with sizes and samples that are
      ints, and with sizes whose product is not negative: the two sizes are
      set together, one recomputed from the other with its sign, and a
      zero height is recomputed from the width. */
  lemma SettingsSized(argv: seq<string>, guarded: bool)
    ensures ReadSettings(argv, guarded).Ok? ==>
              var s := ReadSettings(argv, guarded).settings;
              Fits(s.width) && Fits(s.height) && Fits(s.samples) && 0 <= s.width * s.height
  {
    ParseKeepsSizes(argv, 1, Defaults, guarded);
    var p := ParseFrom(argv, 1, Defaults, guarded);
    if p.Ok? {
      var s := p.settings;
      HeightForFits(s.width);
      var t := FixHeight(s);
      assert WellSized(t);
      ProductNonNegative(t.width, t.height);
    }
  }

  /** What main renders with. */
  datatype Renderer =
    | Sppm(iterations: int, photons: int, radius: real, maxDepth: int)
    | PathTracing(samplesPerPixel: int, maxDepth: int)

  const MaxDepth: int := 50

  /** Mode "sppm" runs SPPM with 10 passes of 10000 photons from radius
      0.1; every other mode runs path tracing with the samples option. */
  function Dispatch(s: Settings): (r: Renderer)
    ensures r.Sppm? <==> s.mode == "sppm"
    ensures r.Sppm? ==> r.iterations == 10 && r.photons == 10000 && r.radius == 0.1
    ensures r.PathTracing? ==> r.samplesPerPixel == s.samples
    ensures r.maxDepth == MaxDepth
  {
    if s.mode == "sppm" then Sppm(10, 10000, 0.1, MaxDepth) else PathTracing(s.samples, MaxDepth)
  }
}
