/**
 * The decision rules that run before the walk: command-line validation, the
 * page-size fallback, `min` and the mode description.
 */
module Config {
  import opened Wrappers
  import opened Paging

  /** The access mode: "r" reads one byte per page, "w" writes one. */
  datatype Mode = Read | Write

  /** Why the arguments were refused, in the order the checks run. */
  datatype UsageError = MissingArguments | BadMode | BadSize

  /** The configuration of a run, fixed once the arguments are accepted. */
  datatype Settings = Settings(mode: Mode, sizeMB: int)

  /**
   * Validates the command line. `args` is the whole argument vector,
   * program name first, so the two user arguments are args[1] (the mode)
   * and args[2] (the size in MiB). `parsedSize` is what `strconv.Atoi`
   * made of args[2]: None when it reported an error.
   */
  function Validate(args: seq<string>, parsedSize: Option<int>): (r: Result<Settings, UsageError>)
    ensures r.Success? <==>
      |args| >= 3 && (args[1] == "r" || args[1] == "w") && parsedSize.Some? && parsedSize.value > 0
    ensures r.Success? ==>
      r.value.sizeMB == parsedSize.value && (r.value.mode == Write <==> args[1] == "w")
    ensures r == Failure(MissingArguments) <==> |args| < 3
    ensures r == Failure(BadMode) <==> |args| >= 3 && args[1] != "r" && args[1] != "w"
  {
    if |args| < 3 then Failure(MissingArguments)
    else if args[1] != "r" && args[1] != "w" then Failure(BadMode)
    else if parsedSize.None? || parsedSize.value <= 0 then Failure(BadSize)
    else Success(Settings(if args[1] == "w" then Write else Read, parsedSize.value))
  }

  /** The page size the walk strides by: the operating system's when positive, 4096 otherwise. */
  function EffectivePageSize(osPageSize: int): (p: nat)
    ensures p > 0
    ensures osPageSize > 0 ==> p == osPageSize
    ensures osPageSize <= 0 ==> p == DefaultPageSize
  {
    if osPageSize <= 0 then DefaultPageSize else osPageSize
  }

  /** The smaller of two integers. */
  function Min(a: int, b: int): (m: int)
    ensures m <= a && m <= b
    ensures m == a || m == b
  {
    if a < b then a else b
  }

  /** The two descriptions shown beside the mode. */
  datatype Description = WritesEveryPage | ReadsEveryPage

  /** Only "w" is described as writing; every other string is described as reading. */
  function ModeDescription(mode: string): (d: Description)
    ensures d == WritesEveryPage <==> mode == "w"
    ensures d == ReadsEveryPage <==> mode != "w"
  {
    if mode == "w" then WritesEveryPage else ReadsEveryPage
  }
}
