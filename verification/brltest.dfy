/** The braille test program (Programs/brltest.c): how `message` cuts a
    text into display windows, and how the `parameter=value` arguments after
    the driver name are matched against the driver's parameter names. */
module BrlTest {
  import opened Common
  import opened Parse

  /** `n` blank cells. */
  function Blanks(n: nat): (r: string)
    ensures |r| == n && forall i :: 0 <= i < n ==> r[i] == ' '
  {
    seq(n, _ => ' ')
  }

  /** The windows `message` writes, each `size` cells: while the rest of the
      text does not fit, `size - 1` characters and a '-' in the last cell;
      then the rest padded with blanks. None when a window of fewer than two
      cells would have to be continued: the C loop then makes no progress
      (one cell) or computes a negative count (no cells). */
  function Windows(text: string, size: nat): (r: Option<seq<string>>)
    ensures r.Some? ==> forall i :: 0 <= i < |r.value| ==> |r.value[i]| == size
    ensures r.Some? <==> |text| <= size || size >= 2
    decreases |text|
  {
    if |text| == 0 then Some([])
    else if |text| <= size then Some([text + Blanks(size - |text|)])
    else if size < 2 then None
    else match Windows(text[size - 1..], size)
      case None => None
      case Some(rest) => Some([text[..size - 1] + "-"] + rest)
  }

  /** The text a run of windows shows: every window but the last without
      its final cell, then the whole last window. */
  function Shown(ws: seq<string>): string
  {
    if |ws| == 0 then ""
    else if |ws| == 1 then ws[0]
    else (if |ws[0]| == 0 then "" else ws[0][..|ws[0]| - 1]) + Shown(ws[1..])
  }

  /** The windows give the text back: every window but the last ends with
      the continuation dash, and dropping those dashes leaves the text
      followed by fewer than `size` blanks of padding. */
  lemma {:induction false} WindowsHoldText(text: string, size: nat)
    requires |text| <= size || size >= 2
    ensures var ws := Windows(text, size).value;
      && (forall i :: 0 <= i < |ws| - 1 ==> ws[i][size - 1] == '-')
      && text <= Shown(ws)
      && |Shown(ws)| - |text| < size + (if |text| == 0 then 1 else 0)
      && forall i :: |text| <= i < |Shown(ws)| ==> Shown(ws)[i] == ' '
    decreases |text|
  {
    var ws := Windows(text, size).value;
    if |text| > size {
      var rest := text[size - 1..];
      WindowsHoldText(rest, size);
      var rs := Windows(rest, size).value;
      assert ws == [text[..size - 1] + "-"] + rs;
      assert ws[1..] == rs;
      assert ws[0][..size - 1] == text[..size - 1];
      assert |rs| >= 1;
      assert Shown(ws) == text[..size - 1] + Shown(rs);
      assert text == text[..size - 1] + rest;
    }
  }

  /** One turn of the loop of `message`: the window written next and the
      text left after it. When the rest fits it is padded with blanks;
      otherwise `size - 1` characters go out with a '-' after them. */
  function NextWindow(rest: string, size: nat): (r: (string, string))
    requires |rest| > 0 && (|rest| <= size || size >= 2)
    ensures |r.1| < |rest| && (|r.1| <= size || size >= 2)
    ensures Windows(rest, size).Some? && Windows(r.1, size).Some?
    ensures Windows(rest, size).value == [r.0] + Windows(r.1, size).value
  {
    if |rest| <= size then (rest + Blanks(size - |rest|), [])
    else (rest[..size - 1] + "-", rest[size - 1..])
  }

  /** message: the windows are written one after the other, and a window the
      display refuses ends the message with 0. `writeOk(i, w)` is the
      driver's answer to the `i`-th window `w`; the pause for a key between
      windows is not part of this model. */
  method Message(text: string, size: nat, writeOk: (nat, string) -> bool) returns (ok: bool, written: seq<string>)
    requires |text| <= size || size >= 2
    ensures Windows(text, size).Some?
    ensures var ws := Windows(text, size).value;
      && written <= ws
      && (ok <==> written == ws && forall i :: 0 <= i < |ws| ==> writeOk(i, ws[i]))
      && (!ok ==> |written| > 0 && !writeOk(|written| - 1, written[|written| - 1]))
      && forall i :: 0 <= i < |written| - 1 ==> writeOk(i, written[i])
  {
    var ws := Windows(text, size).value;
    var rest := text;
    written := [];
    while |rest| > 0
      invariant |rest| <= size || size >= 2
      invariant Windows(rest, size).Some?
      invariant written + Windows(rest, size).value == ws
      invariant forall i :: 0 <= i < |written| ==> writeOk(i, written[i])
      decreases |rest|
    {
      var (w, after) := NextWindow(rest, size);
      ghost var later := Windows(after, size).value;
      assert (written + [w]) + later == written + ([w] + later);
      rest := after;
      written := written + [w];
      if !writeOk(|written| - 1, w) {
        assert ws[|written| - 1] == w;
        ok := false;
        return;
      }
    }
    ok := true;
  }

  // ---------------------------------------------------------------------------
  // Driver parameters on the command line
  // ---------------------------------------------------------------------------

  /** An argument the program accepts: "name=value" with a non-empty name
      that abbreviates some parameter name, ignoring case. */
  predicate WellFormedArgument(arg: string, names: seq<string>)
  {
    match IndexOf(arg, '=')
    case None => false
    case Some(e) => e > 0 && FirstPrefix(arg[..e], names).Some?
  }

  /** The parameter settings after the arguments, or None when the program
      exits with PROG_EXIT_SYNTAX: every setting starts as "", and each
      argument gives the first parameter its name abbreviates the text after
      the first '='. */
  function AssignDriverParameters(names: seq<string>, args: seq<string>): (r: Option<seq<string>>)
    ensures r.Some? ==> |r.value| == |names|
  {
    if |args| == 0 then Some(seq(|names|, _ => ""))
    else match AssignDriverParameters(names, args[..|args| - 1])
      case None => None
      case Some(settings) =>
        var arg := args[|args| - 1];
        match IndexOf(arg, '=')
        case None => None
        case Some(e) =>
          if e == 0 then None
          else match FirstPrefix(arg[..e], names)
            case None => None
            case Some(k) => Some(settings[k := arg[e + 1..]])
  }

  /** The program goes on exactly when every argument is well formed, and
      then the settings are those getParameters computes for the same items
      without a qualifier. */
  lemma {:induction false} DriverParametersAsParameterList(names: seq<string>, args: seq<string>)
    ensures AssignDriverParameters(names, args).Some? <==>
      forall i :: 0 <= i < |args| ==> WellFormedArgument(args[i], names)
    ensures AssignDriverParameters(names, args).Some? ==>
      AssignDriverParameters(names, args).value == ApplyItems(seq(|names|, _ => ""), names, None, args)
    decreases |args|
  {
    if |args| > 0 {
      var init := args[..|args| - 1];
      DriverParametersAsParameterList(names, init);
      AssignLastArgument(names, args);
      assert forall i :: 0 <= i < |init| ==> init[i] == args[i];
      EveryArgumentSplit(names, args);
    }
  }

  /** Every argument is well formed exactly when those before the last are
      and the last one is. */
  lemma EveryArgumentSplit(names: seq<string>, args: seq<string>)
    requires |args| > 0
    ensures (forall i :: 0 <= i < |args| ==> WellFormedArgument(args[i], names)) <==>
      (forall i :: 0 <= i < |args| - 1 ==> WellFormedArgument(args[i], names))
      && WellFormedArgument(args[|args| - 1], names)
  {
  }

  /** One more argument: the settings survive it exactly when it is well
      formed, and it is then applied as a parameter item. */
  lemma AssignLastArgument(names: seq<string>, args: seq<string>)
    requires |args| > 0
    ensures AssignDriverParameters(names, args).Some? <==>
      AssignDriverParameters(names, args[..|args| - 1]).Some? && WellFormedArgument(args[|args| - 1], names)
    ensures AssignDriverParameters(names, args).Some? ==>
      AssignDriverParameters(names, args).value
        == ApplyItem(AssignDriverParameters(names, args[..|args| - 1]).value, names, None, args[|args| - 1])
  {
  }
}
