/**
  `Configurizer::Configuration` and the document it is saved as. The YAML
  text itself is not modelled: a document either holds the dumped value or
  is malformed.
 */
module Settings {
  import opened Common

  /** The host's settings, by name. `Configuration.new` has none. */
  datatype Configuration = Configuration(settings: map<string, string>)

  const FRESH: Configuration := Configuration(map[])

  /**
    The contents of a configuration file. `YAML.dump` also accepts `nil`
    (saving before anything is configured), so a dumped value is optional.
   */
  datatype Document = Dumped(value: Option<Configuration>) | Malformed

  /** `YAML.dump`: a document that parses back to the value dumped. */
  function Dump(c: Option<Configuration>): (r: Document)
    ensures Parse(r) == Some(c)
  {
    Dumped(c)
  }

  /** `YAML.load`: the dumped value, or None when the document does not parse. */
  function Parse(d: Document): (r: Option<Option<Configuration>>)
    ensures r.None? <==> d.Malformed?
  {
    match d
    case Dumped(v) => Some(v)
    case Malformed => None
  }
}
