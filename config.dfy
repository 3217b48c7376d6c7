/**
 * Option resolution of worddiff (`get_config_value`, `calculate_fixed_width`):
 * a command-line value wins over the config file's `[DEFAULT]` section,
 * which wins over the built-in default.
 */
module Config {

  datatype Option<T> = None | Some(value: T)

  /** The Python values an option can take. */
  datatype Value = Null | Flag(b: bool) | Number(n: int) | Text(s: string)

  /** `getboolean` raises `ValueError` on a value it does not recognise. */
  datatype Resolution = Resolved(value: Value) | NotABoolean(raw: string)

  const BooleanKeys: set<string> := {"color", "underline"}

  /** `str.lower()` on ASCII letters; it decides the comparisons below exactly. */
  function Lower(s: string): (r: string)
    ensures |r| == |s|
    ensures forall i :: 0 <= i < |s| ==> r[i] == if 'A' <= s[i] <= 'Z' then (s[i] as int + 32) as char else s[i]
  {
    if s == [] then []
    else [if 'A' <= s[0] <= 'Z' then (s[0] as int + 32) as char else s[0]] + Lower(s[1..])
  }

  /** `ConfigParser.getboolean`: the eight words of `BOOLEAN_STATES`, in any case. */
  function GetBoolean(raw: string): (r: Option<bool>)
    ensures r == Some(true) <==> Lower(raw) in {"1", "yes", "true", "on"}
    ensures r == Some(false) <==> Lower(raw) in {"0", "no", "false", "off"}
  {
    var v := Lower(raw);
    if v in {"1", "yes", "true", "on"} then Some(true)
    else if v in {"0", "no", "false", "off"} then Some(false)
    else None
  }

  /**
   * `get_config_value(key, command_line_arg, default)` with the config
   * file's entries passed as `config` and Python's `int()` as `parseInt`.
   */
  function GetConfigValue(key: string, commandLineArg: Value, config: map<string, string>,
                          default: Value, parseInt: string -> Option<int>): (r: Resolution)
    // a value given on the command line always wins
    ensures commandLineArg != Null ==> r == Resolved(commandLineArg)
    // with neither a command-line value nor a file entry, the default
    ensures commandLineArg == Null && key !in config ==> r == Resolved(default)
    // only a boolean option read from the file can fail
    ensures r.NotABoolean? <==>
              commandLineArg == Null && key in config && key in BooleanKeys && GetBoolean(config[key]).None?
    ensures commandLineArg == Null && key in config && key in BooleanKeys && r.Resolved? ==>
              r.value == Flag(GetBoolean(config[key]).value)
    // `fixed_width`: "none" in any case is Python's None; an unparsable number gives the default
    ensures commandLineArg == Null && key == "fixed_width" && key in config ==>
              r == Resolved(if Lower(config[key]) == "none" then Null
                            else match parseInt(config[key])
                              case Some(n) => Number(n)
                              case None => default)
    // every other option is the file's text as it stands
    ensures commandLineArg == Null && key in config && key !in BooleanKeys && key != "fixed_width" ==>
              r == Resolved(Text(config[key]))
  {
    if commandLineArg != Null then Resolved(commandLineArg)
    else if key in config then
      if key in BooleanKeys then
        match GetBoolean(config[key])
        case Some(b) => Resolved(Flag(b))
        case None => NotABoolean(config[key])
      else if key == "fixed_width" then
        var value := config[key];
        if Lower(value) == "none" then Resolved(Null)
        else
          match parseInt(value)
          case Some(n) => Resolved(Number(n))
          case None => Resolved(default)
      else Resolved(Text(config[key]))
    else Resolved(default)
  }

  /**
   * `calculate_fixed_width`: an explicit width, else half the terminal width
   * (rounded down) less four.
   */
  function CalculateFixedWidth(fixedWidth: Option<int>, terminalColumns: nat): (w: int)
    ensures fixedWidth.Some? ==> w == fixedWidth.value
    ensures fixedWidth.None? ==> 2 * (w + 4) <= terminalColumns < 2 * (w + 4) + 2
  {
    match fixedWidth
    case Some(n) => n
    case None => terminalColumns / 2 - 4
  }
}
