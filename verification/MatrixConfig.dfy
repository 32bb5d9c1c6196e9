/** The matrix configuration record and the repair applied to it whenever it is read. */
module MatrixConfig {
  import opened Words

  const ENGINE_NATIVE_3D := 1
  const BACKGROUND_EFFECTS := 0
  const BACKGROUND_DATA_VISUALIZATION := 1

  const ENGINE_MAX := 1
  const EFFECT_MODE_MAX := 69
  const NATIVE_3D_MODE_MAX := 14
  const PROVIDER_MAX := 1
  const GAIN_MAX := 200
  const BACKGROUND_MAX := 1
  const SOURCE_MAX := 3
  const METRIC_MAX := 5
  const VIZ_MODE_MAX := 6
  const STALE_MAX := 2
  const COLOR_MAX := 0xFF_FFFF

  /** Settings that the repair does not look at. */
  datatype PlainSettings = PlainSettings(
    brightness: uint8,
    alarmMode: uint8,
    rotation: uint8,
    autoRotate: bool,
    effectSpeed: uint32,
    effectColors: seq<uint32>,
    smoothing: uint8,
    deviceId: string,
    menuTextColor: uint32,
    menuScrollSpeed: uint16,
    menuEnabled: bool)

  datatype Config = Config(
    effectEnabled: bool,
    effectEngine: uint8,
    effectMode: uint8,
    reactivityProvider: uint8,
    reactivityGain: uint8,
    backgroundMode: uint8,
    vizEnabled: bool,
    vizSource: uint8,
    vizMetric: uint8,
    vizMode: uint8,
    vizMin: real,
    vizMax: real,
    colorMin: uint32,
    colorMid: uint32,
    colorMax: uint32,
    brightnessMin: uint8,
    brightnessMax: uint8,
    staleBehavior: uint8,
    plain: PlainSettings)

  /** Values above the maximum fall back to 0. */
  function OrZero(value: uint8, max: uint8): uint8 {
    if value <= max then value else 0
  }

  function EffectModeMax(engine: uint8): uint8 {
    if engine == ENGINE_NATIVE_3D then NATIVE_3D_MODE_MAX else EFFECT_MODE_MAX
  }

  /** What the rest of the firmware may rely on after a read. */
  predicate Sane(c: Config) {
    && c.effectEngine <= ENGINE_MAX
    && c.effectMode <= EffectModeMax(c.effectEngine)
    && c.reactivityProvider <= PROVIDER_MAX
    && c.reactivityGain <= GAIN_MAX
    && c.backgroundMode <= BACKGROUND_MAX
    && c.vizSource <= SOURCE_MAX
    && c.vizMetric <= METRIC_MAX
    && c.vizMode <= VIZ_MODE_MAX
    && c.staleBehavior <= STALE_MAX
    && c.colorMin <= COLOR_MAX && c.colorMid <= COLOR_MAX && c.colorMax <= COLOR_MAX
    && c.vizMin < c.vizMax
    && c.brightnessMin <= c.brightnessMax
    && !(c.effectEnabled && c.vizEnabled)
    && (c.effectEnabled ==> c.backgroundMode == BACKGROUND_EFFECTS)
    && (c.vizEnabled ==> c.backgroundMode == BACKGROUND_DATA_VISUALIZATION)
  }

  function Healed(c: Config): Config {
    var engine := OrZero(c.effectEngine, ENGINE_MAX);
    var background := OrZero(c.backgroundMode, BACKGROUND_MAX);
    c.(effectEngine := engine,
       effectMode := OrZero(c.effectMode, EffectModeMax(engine)),
       reactivityProvider := OrZero(c.reactivityProvider, PROVIDER_MAX),
       reactivityGain := if c.reactivityGain > GAIN_MAX then GAIN_MAX else c.reactivityGain,
       backgroundMode := background,
       vizSource := OrZero(c.vizSource, SOURCE_MAX),
       vizMetric := OrZero(c.vizMetric, METRIC_MAX),
       vizMode := OrZero(c.vizMode, VIZ_MODE_MAX),
       staleBehavior := OrZero(c.staleBehavior, STALE_MAX),
       colorMin := c.colorMin % (COLOR_MAX + 1),
       colorMid := c.colorMid % (COLOR_MAX + 1),
       colorMax := c.colorMax % (COLOR_MAX + 1),
       vizMax := if c.vizMax <= c.vizMin then c.vizMin + 1.0 else c.vizMax,
       brightnessMin := if c.brightnessMax < c.brightnessMin then c.brightnessMax else c.brightnessMin,
       brightnessMax := if c.brightnessMax < c.brightnessMin then c.brightnessMin else c.brightnessMax,
       effectEnabled := c.effectEnabled && background != BACKGROUND_DATA_VISUALIZATION,
       vizEnabled := c.vizEnabled && background == BACKGROUND_DATA_VISUALIZATION)
  }

  /** The repair always produces a sane record, changes exactly the insane ones, and is done after one pass. */
  lemma HealedIsSane(c: Config)
    ensures Sane(Healed(c))
    ensures Healed(c) == c <==> Sane(c)
    ensures Healed(Healed(c)) == Healed(c)
    ensures Healed(c).plain == c.plain
  {
    SmallColor(c.colorMin);
    SmallColor(c.colorMid);
    SmallColor(c.colorMax);
    SaneIsFixed(c);
    SaneIsFixed(Healed(c));
  }

  /** What each field is repaired to: numbered choices to the first one, ranges to their nearest or ordered values. */
  lemma HealedFields(c: Config)
    ensures var h := Healed(c);
            && h.effectEngine == (if c.effectEngine > 1 then 0 else c.effectEngine)
            && h.effectMode == (if c.effectMode > (if c.effectEngine == 1 then 14 else 69) then 0 else c.effectMode)
            && h.reactivityProvider == (if c.reactivityProvider > 1 then 0 else c.reactivityProvider)
            && h.reactivityGain == Min(c.reactivityGain, 200)
            && h.backgroundMode == (if c.backgroundMode > 1 then 0 else c.backgroundMode)
            && h.vizSource == (if c.vizSource > 3 then 0 else c.vizSource)
            && h.vizMetric == (if c.vizMetric > 5 then 0 else c.vizMetric)
            && h.vizMode == (if c.vizMode > 6 then 0 else c.vizMode)
            && h.staleBehavior == (if c.staleBehavior > 2 then 0 else c.staleBehavior)
            && h.vizMin == c.vizMin && (h.vizMax == c.vizMax || (c.vizMax <= c.vizMin && h.vizMax == c.vizMin + 1.0))
            && multiset{h.brightnessMin, h.brightnessMax} == multiset{c.brightnessMin, c.brightnessMax}
            && h.effectEnabled == (c.effectEnabled && c.backgroundMode != 1)
            && h.vizEnabled == (c.vizEnabled && c.backgroundMode == 1)
            && SameColor(h.colorMin, c.colorMin) && SameColor(h.colorMid, c.colorMid)
            && SameColor(h.colorMax, c.colorMax)
  {
    KeepsColor(c.colorMin);
    KeepsColor(c.colorMid);
    KeepsColor(c.colorMax);
    if c.brightnessMax < c.brightnessMin {
      assert multiset{c.brightnessMax, c.brightnessMin} == multiset{c.brightnessMin, c.brightnessMax};
    }
  }

  /** The three colour bytes are kept and the fourth is dropped. */
  predicate SameColor(healed: uint32, color: uint32) {
    healed < 0x100_0000 && exists w: uint8 :: color == w * 0x100_0000 + healed
  }

  lemma KeepsColor(color: uint32)
    ensures SameColor(color % (COLOR_MAX + 1), color)
  {
    var w: uint8 := color / 0x100_0000;
    assert color == w * 0x100_0000 + color % 0x100_0000;
  }

  lemma SaneIsFixed(c: Config)
    ensures Sane(c) ==> Healed(c) == c
  {
    if Sane(c) {
      SmallColor(c.colorMin);
      SmallColor(c.colorMid);
      SmallColor(c.colorMax);
    }
  }

  lemma SmallColor(color: uint32)
    ensures color % (COLOR_MAX + 1) <= COLOR_MAX
    ensures color <= COLOR_MAX ==> color % (COLOR_MAX + 1) == color
  {
  }

  method NormalizeBackgroundSelection(config: Config) returns (c: Config)
    ensures c == config.(
              backgroundMode := OrZero(config.backgroundMode, BACKGROUND_MAX),
              effectEnabled := config.effectEnabled && c.backgroundMode != BACKGROUND_DATA_VISUALIZATION,
              vizEnabled := config.vizEnabled && c.backgroundMode == BACKGROUND_DATA_VISUALIZATION)
  {
    c := config.(backgroundMode := OrZero(config.backgroundMode, BACKGROUND_MAX));
    if c.backgroundMode == BACKGROUND_DATA_VISUALIZATION {
      c := c.(effectEnabled := false);
    } else {
      c := c.(vizEnabled := false);
    }
  }

  /** The field-by-field repair of a configuration that was just read. */
  method Heal(config: Config) returns (c: Config)
    ensures c == Healed(config)
  {
    c := config.(effectEngine := OrZero(config.effectEngine, ENGINE_MAX));
    c := c.(effectMode := OrZero(c.effectMode, EffectModeMax(c.effectEngine)));
    c := c.(reactivityProvider := OrZero(c.reactivityProvider, PROVIDER_MAX));
    c := c.(reactivityGain := if c.reactivityGain > GAIN_MAX then GAIN_MAX else c.reactivityGain);
    c := c.(backgroundMode := OrZero(c.backgroundMode, BACKGROUND_MAX));
    c := c.(vizSource := OrZero(c.vizSource, SOURCE_MAX), vizMetric := OrZero(c.vizMetric, METRIC_MAX));
    c := c.(vizMode := OrZero(c.vizMode, VIZ_MODE_MAX), staleBehavior := OrZero(c.staleBehavior, STALE_MAX));
    c := c.(colorMin := c.colorMin % (COLOR_MAX + 1),
            colorMid := c.colorMid % (COLOR_MAX + 1),
            colorMax := c.colorMax % (COLOR_MAX + 1));
    if c.vizMax <= c.vizMin {
      c := c.(vizMax := c.vizMin + 1.0);
    }
    if c.brightnessMax < c.brightnessMin {
      c := c.(brightnessMax := c.brightnessMin, brightnessMin := c.brightnessMax);
    }
    c := NormalizeBackgroundSelection(c);
  }
}
