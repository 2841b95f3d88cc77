/**
 * Brvr_Diff_Render_Abstract (Diff/Render/Abstract.php): what every renderer
 * holds once constructed — the source text, the parsed ops and the direction
 * in which they are replayed. The fields are set once and only read after,
 * so a renderer is a value here.
 */
module DiffRender {
  import opened Wrappers
  import opened DiffOp
  import opened DiffOps

  /**
   * The PHP value passed as `$forward`: a boolean, or anything else (null,
   * 0, "", an array, ...). Only the boolean `false` itself turns the
   * direction round, since the constructor compares with `===`.
   */
  datatype ForwardArg = BoolArg(b: bool) | NonBoolArg

  /** The direction stored by the constructor. */
  function Direction(forward: ForwardArg): (direction: bool)
    ensures !direction <==> forward.BoolArg? && !forward.b
  {
    forward != BoolArg(false)
  }

  /** A constructed renderer: source text, the Brvr_Diff_Ops it parsed, and `_direction`. */
  datatype Renderer = Renderer(source: string, ops: Ops, direction: bool) {
    /** The ops are what the stored opcode string parses to. */
    ghost predicate Valid() {
      Parse(ops.opcodes) == Some(ops.ops)
    }

    /** `getSource()`. */
    function GetSource(): (s: string)
      ensures s == source
    {
      source
    }

    /** `getOpcodes()`: the string given to the constructor, which parses to the ops replayed. */
    function GetOpcodes(): (s: string)
      requires Valid()
      ensures Parse(s) == Some(ops.ops)
    {
      ops.opcodes
    }
  }

  /**
   * The constructor: parse the opcodes (the Brvr_Diff_Ops exception
   * propagates as a failure) and store the source and the direction.
   */
  method NewRenderer(source: string, opcodes: string, forward: ForwardArg) returns (r: Result<Renderer>)
    ensures r.Success? <==> Parse(opcodes).Some?
    ensures r.Success? ==>
      r.value.Valid() && r.value.source == source && r.value.ops.opcodes == opcodes &&
      r.value.ops.ops == Parse(opcodes).value &&
      (r.value.direction <==> !(forward.BoolArg? && !forward.b))
    ensures r.Failure? ==> r.error == "Opcodes supplied are invalid"
  {
    var ops := NewOps(opcodes);
    if ops.Failure? {
      return Failure(ops.error);
    }
    r := Success(Renderer(source, ops.value, Direction(forward)));
  }
}
