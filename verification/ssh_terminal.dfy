/** Terminal size for the SSH variant (`me.bazhenov.groovysh.SshTerminal`):
    the width and height come from the session's `COLUMNS` and `LINES`
    environment variables, falling back to jline's defaults. */
module SshTerminal {
  import opened JavaPrims
  import JavaInteger

  /** `DEFAULT_WIDTH` and `DEFAULT_HEIGHT`, inherited from jline's
      `TerminalSupport`. */
  const DefaultWidth: int := 80
  const DefaultHeight: int := 24

  /** The variables of an SSH session environment (`Environment.getEnv()`). */
  type Variables = map<string, string>

  /** A getter's outcome: a size, or the `NullPointerException` raised when
      no environment was registered for the calling thread. */
  datatype Size = Size(n: int) | NullPointer

  /** `getEnv().get(key)`: `None` stands for the `null` of a missing key. */
  function Lookup(vars: Variables, key: string): Option<string>
  {
    if key in vars then Some(vars[key]) else None
  }

  /** The shared rule of both getters: the parsed value, unless it is 0 or
      does not parse (a missing variable parses as `null`, which also
      raises `NumberFormatException`). */
  function SizeFrom(registered: Option<Variables>, key: string, default: int): (r: Size)
    ensures registered.None? <==> r.NullPointer?
    ensures r.Size? ==>
              var parsed := JavaInteger.ParseInt(Lookup(registered.value, key));
              (r.n == default <==> parsed.None? || parsed.value == 0 || parsed.value == default)
    ensures r.Size? ==>
              var parsed := JavaInteger.ParseInt(Lookup(registered.value, key));
              && (parsed.Some? && parsed.value != 0 ==> r.n == parsed.value)
              && (parsed.None? || parsed.value == 0 ==> r.n == default)
  {
    match registered
    case None => NullPointer
    case Some(vars) =>
      match JavaInteger.ParseInt(Lookup(vars, key))
      case None => Size(default)
      case Some(v) => if v == 0 then Size(default) else Size(v)
  }

  /** `getWidth()`. */
  function GetWidth(registered: Option<Variables>): (r: Size)
    ensures registered.None? <==> r.NullPointer?
    ensures r.Size? ==> r.n != 0 && InInt32(r.n)
  {
    SizeFrom(registered, "COLUMNS", DefaultWidth)
  }

  /** `getHeight()`. */
  function GetHeight(registered: Option<Variables>): (r: Size)
    ensures registered.None? <==> r.NullPointer?
    ensures r.Size? ==> r.n != 0 && InInt32(r.n)
  {
    SizeFrom(registered, "LINES", DefaultHeight)
  }

  /** A `COLUMNS` value written as any non-zero `int` is the width, negative
      values included; likewise `LINES` and the height. */
  lemma SizeIsVariable(vars: Variables, n: int)
    requires InInt32(n) && n != 0
    ensures GetWidth(Some(vars["COLUMNS" := JavaInteger.FormatInt(n)])) == Size(n)
    ensures GetHeight(Some(vars["LINES" := JavaInteger.FormatInt(n)])) == Size(n)
  {
    JavaInteger.ParseFormat(n);
  }

  /** Spellings `Integer.parseInt` accepts besides the canonical one, such
      as an explicit plus sign or leading zeros, give the value they
      denote. */
  lemma NonCanonicalSpellings(vars: Variables)
    ensures GetWidth(Some(vars["COLUMNS" := "+5"])) == Size(5)
    ensures GetHeight(Some(vars["LINES" := "007"])) == Size(7)
  {
    assert "+5"[1..] == "5";
    assert JavaInteger.DigitsValue("5") == 5 by {
      assert "5"[..0] == "";
    }
    assert JavaInteger.DigitsValue("007") == 7 by {
      assert "007"[..2] == "00" && "00"[..1] == "0" && "0"[..0] == "";
    }
  }

  /** `COLUMNS` of 0, a missing `COLUMNS`, or one that does not parse give
      `DEFAULT_WIDTH`; the same holds for `LINES` and `DEFAULT_HEIGHT`. */
  lemma DefaultSizes(vars: Variables)
    requires JavaInteger.ParseInt(Lookup(vars, "COLUMNS")) in {None, Some(0)}
    requires JavaInteger.ParseInt(Lookup(vars, "LINES")) in {None, Some(0)}
    ensures GetWidth(Some(vars)) == Size(DefaultWidth)
    ensures GetHeight(Some(vars)) == Size(DefaultHeight)
  {
  }

  /** The width reads `COLUMNS` only and the height `LINES` only. */
  lemma SizesReadOneVariable(a: Variables, b: Variables)
    ensures Lookup(a, "COLUMNS") == Lookup(b, "COLUMNS") ==> GetWidth(Some(a)) == GetWidth(Some(b))
    ensures Lookup(a, "LINES") == Lookup(b, "LINES") ==> GetHeight(Some(a)) == GetHeight(Some(b))
  {
  }
}
