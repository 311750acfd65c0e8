/** The configured displays, as the core uses them. The YAML file loading
    is not modelled: the display list is a given, immutable sequence. */
module Config {

  /** One entry of the `displays` list: the xrandr output name, extra
      xrandr options as one space-separated string, the outputs whose
      presence turns this one off, and the workspaces pinned to it. */
  datatype Display = Display(
    name: string,
    randrExtraOptions: string,
    turnOffWhen: seq<string>,
    workspaces: seq<int>)
}
