/**
 * The parts of webpack the plugin touches but does not define: the original
 * modules and chunks of a compilation, and the compilation's asset table and
 * path template function. Only the fields the plugin reads or writes are
 * kept.
 */
module Host {
  import opened Wrappers
  import opened JsValues
  import opened JSONConcatSources

  /** What the loader attached to a module: its key and its parsed i18n object. */
  datatype Info = Info(key: string, json: Dict<JsonValue>)

  /** An original webpack module: `identifier()`, `index2`, and the loader's content, if any. */
  class HostModule {
    const identifier: string
    const index2: int
    const content: Option<Info>

    constructor (identifier: string, index2: int, content: Option<Info>)
      ensures this.identifier == identifier && this.index2 == index2 && this.content == content
    {
      this.identifier := identifier;
      this.index2 := index2;
      this.content := content;
    }
  }

  /**
   * An original webpack chunk. `initial` is `isInitial()`, which holds when
   * the chunk has entry points; `files` is the list the plugin appends asset
   * names to.
   */
  class HostChunk {
    const name: string
    const initial: bool
    var chunks: seq<HostChunk>
    var parents: seq<HostChunk>
    var modules: seq<HostModule>
    var files: seq<string>

    constructor (name: string, initial: bool)
      ensures this.name == name && this.initial == initial
      ensures chunks == [] && parents == [] && modules == [] && files == []
    {
      this.name := name;
      this.initial := initial;
      chunks := [];
      parents := [];
      modules := [];
      files := [];
    }
  }

  /**
   * The compilation: its assets, an object from file name to source, and
   * `getPath(pattern, { chunk })`, whose template expansion is webpack's and
   * is taken as given.
   */
  class Compilation {
    var assets: Dict<JSONConcatSource>
    const getPath: (string, HostChunk) -> string

    constructor (getPath: (string, HostChunk) -> string)
      ensures assets == EmptyDict() && this.getPath == getPath
    {
      assets := EmptyDict();
      this.getPath := getPath;
    }
  }
}
