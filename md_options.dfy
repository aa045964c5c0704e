/**
 * The functional options of md/options.go and their application by `New` (md/md.go):
 * each option checks its argument and then sets one configuration field.
 */
module MdOptions {
  import W = Wrappers
  import opened MdResolve

  /** `bufio.MaxScanTokenSize`, the default `lineBufferSize`. */
  const DefaultLineBufferSize: int := 64 * 1024

  /** A provider function value as Go passes it: possibly nil. */
  datatype ProviderFunc = Nil | Func(files: Provider)

  /** The closures `MaxLineSize(size)` and `IncludeProvider(f)` return. */
  datatype Option = MaxLineSize(size: int) | IncludeProvider(f: ProviderFunc)

  /** The fields of `MarkDown` an option can set. */
  datatype Config = Config(includeProvider: Provider, lineBufferSize: int)

  /** What `New` starts from: the file system as provider and the default buffer size. */
  function Defaults(fileSystem: Provider): Config {
    Config(fileSystem, DefaultLineBufferSize)
  }

  /** The guard of each option: a size of at least 2, a non-nil provider. */
  predicate Accepts(o: Option) {
    match o
    case MaxLineSize(size) => size >= 2
    case IncludeProvider(f) => f.Func?
  }

  /** Running one option: a rejected option changes nothing, an accepted one changes only its own field. */
  function ApplyOption(c: Config, o: Option): (r: Config)
    ensures !Accepts(o) ==> r == c
    ensures o.MaxLineSize? && Accepts(o) ==> r.lineBufferSize == o.size && r.includeProvider == c.includeProvider
    ensures o.IncludeProvider? && Accepts(o) ==> r.includeProvider == o.f.files && r.lineBufferSize == c.lineBufferSize
  {
    if !Accepts(o) then c
    else match o
      case MaxLineSize(size) => c.(lineBufferSize := size)
      case IncludeProvider(f) => c.(includeProvider := f.files)
  }

  /** The loop of `New`: options in order, stopping at the first one that fails. */
  function ApplyAll(c: Config, options: seq<Option>): W.Option<Config>
    decreases |options|
  {
    if options == [] then W.Some(c)
    else if !Accepts(options[0]) then W.None
    else ApplyAll(ApplyOption(c, options[0]), options[1..])
  }

  /** `New` fails exactly when some option is rejected. */
  lemma {:induction false} ApplyAllFails(c: Config, options: seq<Option>)
    ensures ApplyAll(c, options).None? <==> exists i :: 0 <= i < |options| && !Accepts(options[i])
    decreases |options|
  {
    if options != [] && Accepts(options[0]) {
      ApplyAllFails(ApplyOption(c, options[0]), options[1..]);
      if exists i :: 0 <= i < |options| && !Accepts(options[i]) {
        var i :| 0 <= i < |options| && !Accepts(options[i]);
        assert options[1..][i - 1] == options[i];
      }
      if exists j :: 0 <= j < |options[1..]| && !Accepts(options[1..][j]) {
        var j :| 0 <= j < |options[1..]| && !Accepts(options[1..][j]);
        assert options[j + 1] == options[1..][j];
      }
    }
  }

  /** The size set by the last `MaxLineSize` option, or `d` if there is none. */
  function LastSize(options: seq<Option>, d: int): int {
    if options == [] then d
    else if options[|options| - 1].MaxLineSize? then options[|options| - 1].size
    else LastSize(options[..|options| - 1], d)
  }

  /** The provider set by the last non-nil `IncludeProvider` option, or `d` if there is none. */
  function LastProvider(options: seq<Option>, d: Provider): Provider {
    if options == [] then d
    else if options[|options| - 1].IncludeProvider? && options[|options| - 1].f.Func? then options[|options| - 1].f.files
    else LastProvider(options[..|options| - 1], d)
  }

  lemma {:induction false} LastSizeCons(o: Option, options: seq<Option>, d: int)
    ensures LastSize([o] + options, d) == LastSize(options, if o.MaxLineSize? then o.size else d)
    decreases |options|
  {
    var all := [o] + options;
    if options == [] {
      assert all[..0] == [];
    } else {
      assert all[|all| - 1] == options[|options| - 1];
      assert all[..|all| - 1] == [o] + options[..|options| - 1];
      LastSizeCons(o, options[..|options| - 1], d);
    }
  }

  lemma {:induction false} LastProviderCons(o: Option, options: seq<Option>, d: Provider)
    ensures LastProvider([o] + options, d) == LastProvider(options, if o.IncludeProvider? && o.f.Func? then o.f.files else d)
    decreases |options|
  {
    var all := [o] + options;
    if options == [] {
      assert all[..0] == [];
    } else {
      assert all[|all| - 1] == options[|options| - 1];
      assert all[..|all| - 1] == [o] + options[..|options| - 1];
      LastProviderCons(o, options[..|options| - 1], d);
    }
  }

  /** When `New` succeeds, each field holds the value of the last option that set it, or its default. */
  lemma {:induction false} LastOptionWins(c: Config, options: seq<Option>)
    requires ApplyAll(c, options).Some?
    ensures forall i :: 0 <= i < |options| ==> Accepts(options[i])
    ensures ApplyAll(c, options).value.lineBufferSize == LastSize(options, c.lineBufferSize)
    ensures ApplyAll(c, options).value.includeProvider == LastProvider(options, c.includeProvider)
    decreases |options|
  {
    ApplyAllFails(c, options);
    if options != [] {
      var o := options[0];
      LastOptionWins(ApplyOption(c, o), options[1..]);
      assert options == [o] + options[1..];
      LastSizeCons(o, options[1..], c.lineBufferSize);
      LastProviderCons(o, options[1..], c.includeProvider);
    }
  }
}
