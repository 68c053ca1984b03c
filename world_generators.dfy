/**
 * The world-generator handlers of a mission description: the four kinds, the name each
 * reports, and the default generator's sanitising of its options string, in which every
 * double quote becomes a single quote.
 */
module WorldGenerators {

  datatype WorldGenerator =
    | DefaultWorldGenerator(forceReset: bool, generatorOptions: string)
    | FileWorldGenerator(filename: string, destroyAfterUse: bool)
    | FlatWorldGenerator(forceReset: bool)
    | BiomeGenerator(biomeId: int, forceReset: bool)
  {
    /** The handler's name, fixed per kind of generator. */
    function ToString(): (r: string)
      ensures DefaultWorldGenerator? ==> r == "default_world_generator"
      ensures FileWorldGenerator? ==> r == "file_world_generator"
      ensures FlatWorldGenerator? ==> r == "flat_world_generator"
      ensures BiomeGenerator? ==> r == "biome_generator"
    {
      match this
      case DefaultWorldGenerator(_, _) => "default_world_generator"
      case FileWorldGenerator(_, _) => "file_world_generator"
      case FlatWorldGenerator(_) => "flat_world_generator"
      case BiomeGenerator(_, _) => "biome_generator"
    }
  }

  /** `s` with every `"` replaced by `'`, position by position. */
  function ReplaceQuotes(s: string): (r: string)
    ensures |r| == |s|
    ensures forall i :: 0 <= i < |s| ==> r[i] == if s[i] == '"' then '\'' else s[i]
    ensures '"' !in r
  {
    if s == [] then [] else [if s[0] == '"' then '\'' else s[0]] + ReplaceQuotes(s[1..])
  }

  /**
   * The default generator's constructor: the reset flag is kept as given and the options
   * are stored with their double quotes replaced.
   */
  function NewDefaultWorldGenerator(forceReset: bool := true, generatorOptions: string := "{}"): (g: WorldGenerator)
    ensures g.DefaultWorldGenerator? && g.forceReset == forceReset
    ensures g.generatorOptions == ReplaceQuotes(generatorOptions)
    ensures '"' !in g.generatorOptions
  {
    DefaultWorldGenerator(forceReset, ReplaceQuotes(generatorOptions))
  }

  function NewFileWorldGenerator(filename: string, destroyAfterUse: bool := true): (g: WorldGenerator)
    ensures g.FileWorldGenerator? && g.filename == filename && g.destroyAfterUse == destroyAfterUse
  {
    FileWorldGenerator(filename, destroyAfterUse)
  }

  function NewFlatWorldGenerator(forceReset: bool := true): (g: WorldGenerator)
    ensures g.FlatWorldGenerator? && g.forceReset == forceReset
  {
    FlatWorldGenerator(forceReset)
  }

  function NewBiomeGenerator(biomeId: int, forceReset: bool := true): (g: WorldGenerator)
    ensures g.BiomeGenerator? && g.biomeId == biomeId && g.forceReset == forceReset
  {
    BiomeGenerator(biomeId, forceReset)
  }

  /** A string without double quotes is left as it is. */
  lemma {:induction false} ReplaceQuotesNoQuote(s: string)
    requires '"' !in s
    ensures ReplaceQuotes(s) == s
  {
    if s != [] {
      assert '"' !in s[1..];
      ReplaceQuotesNoQuote(s[1..]);
      assert s == [s[0]] + s[1..];
    }
  }

  /** Sanitising twice is sanitising once. */
  lemma ReplaceQuotesIdempotent(s: string)
    ensures ReplaceQuotes(ReplaceQuotes(s)) == ReplaceQuotes(s)
  {
    ReplaceQuotesNoQuote(ReplaceQuotes(s));
  }

  /**
   * The name depends only on the kind of generator: two generators report the same name
   * exactly when they are of the same kind, whatever their settings.
   */
  lemma ToStringIdentifiesKind(g: WorldGenerator, h: WorldGenerator)
    ensures g.ToString() == h.ToString() <==>
      (g.DefaultWorldGenerator? && h.DefaultWorldGenerator?) ||
      (g.FileWorldGenerator? && h.FileWorldGenerator?) ||
      (g.FlatWorldGenerator? && h.FlatWorldGenerator?) ||
      (g.BiomeGenerator? && h.BiomeGenerator?)
  {
    var names := ["default_world_generator", "file_world_generator", "flat_world_generator", "biome_generator"];
    assert names[0][0] != names[1][0] && names[0][0] != names[2][0] && names[0][0] != names[3][0];
    assert names[1][1] != names[2][1] && names[1][0] != names[3][0] && names[2][0] != names[3][0];
  }
}
