/**
 The ANSI colour table and the series decorator: a named colour wraps a
 marker in the colour's escape code and the reset code; an unknown or
 missing name leaves the marker bare.
 */
module Colors {
  import opened Optional

  const Reset: string := "\U{1B}[0m"

  /** The name-to-escape-code table, `reset` included. */
  const Table: map<string, string> := map[
    "black" := "\U{1B}[30m",
    "red" := "\U{1B}[31m",
    "green" := "\U{1B}[32m",
    "yellow" := "\U{1B}[33m",
    "blue" := "\U{1B}[34m",
    "magenta" := "\U{1B}[35m",
    "cyan" := "\U{1B}[36m",
    "white" := "\U{1B}[37m",
    "reset" := Reset
  ]

  /** `COLORS.get(name, '')`: the escape code of a known name, otherwise empty. */
  function Code(name: Option<string>): (r: string)
    ensures r != "" <==> name.Some? && name.value in Table
    ensures r != "" ==> r == Table[name.value]
  {
    if name.Some? && name.value in Table then Table[name.value] else ""
  }

  /** `COLORS['reset'] if color_code else ''`: a reset follows only a real colour code. */
  function ResetFor(code: string): string
  {
    if code != "" then Reset else ""
  }

  /** The glyph written into a grid cell: colour code, marker, reset. */
  function Decorate(name: Option<string>, marker: string): string
  {
    var code := Code(name);
    code + marker + ResetFor(code)
  }

  /** An unknown or missing colour leaves the marker untouched; a known one
      wraps it, so the marker sits right after the code and the reset closes it. */
  lemma DecorateWraps(name: Option<string>, marker: string)
    ensures name.None? || name.value !in Table <==> Decorate(name, marker) == marker
    ensures name.Some? && name.value in Table ==>
      var g := Decorate(name, marker);
      && |g| == |Table[name.value]| + |marker| + |Reset|
      && g[..|Table[name.value]|] == Table[name.value]
      && g[|Table[name.value]|..|g| - |Reset|] == marker
      && g[|g| - |Reset|..] == Reset
  {
    if name.Some? && name.value in Table {
      var code := Table[name.value];
      assert Code(name) == code && code != "";
      assert |Reset| == 4;
      var g := Decorate(name, marker);
      assert g == code + marker + Reset;
      assert g[..|code|] == code;
      assert g[|code|..|g| - |Reset|] == marker;
    }
  }
}
