/**
 * The route-argument parsing of the integrations service
 * (backend/pkg/integrations/handlers.go): the integration name, the project
 * id and the session id taken from the path variables of a request, with the
 * errors the handlers answer when one is missing or is not a valid id.
 */
module IntegrationHandlers {
  import opened Wrappers

  /** The largest value of a Go `uint64`. */
  const MaxUint64: nat := 0xFFFF_FFFF_FFFF_FFFF

  const EmptyIntegrationName := "empty integration name"
  const EmptyProjectId := "project id is empty"
  const InvalidProjectId := "invalid project id"
  const EmptySessionId := "session id is empty"
  const InvalidSessionId := "invalid session id"

  // ---------------------------------------------------------------------------
  // strconv

  predicate IsDigit(c: char) {
    '0' <= c <= '9'
  }

  predicate AllDigits(s: string) {
    forall i :: 0 <= i < |s| ==> IsDigit(s[i])
  }

  function DigitValue(c: char): nat
    requires IsDigit(c)
  {
    c as int - '0' as int
  }

  function DigitChar(d: nat): char
    requires d < 10
  {
    ('0' as int + d) as char
  }

  /** The number that the decimal digits `s` write, leading zeros allowed. */
  function DecimalValue(s: string): nat
    requires AllDigits(s)
    decreases |s|
  {
    if |s| == 0 then 0 else DecimalValue(s[..|s| - 1]) * 10 + DigitValue(s[|s| - 1])
  }

  /**
   * `strconv.ParseUint(s, 10, 64)`, with `None` for the error: at least one
   * decimal digit, nothing else (no sign, no prefix, no underscore), and a
   * value that fits in 64 bits.
   */
  function ParseUint(s: string): (r: Option<nat>)
    ensures r.Some? ==> r.value <= MaxUint64
    ensures r.Some? ==> |s| > 0 && AllDigits(s) && r.value == DecimalValue(s)
  {
    if |s| == 0 || !AllDigits(s) then None
    else if DecimalValue(s) > MaxUint64 then None
    else Some(DecimalValue(s))
  }

  /** `strconv.FormatUint(n, 10)`: the digits of `n`, without leading zeros. */
  function FormatUint(n: nat): (s: string)
    ensures |s| > 0 && AllDigits(s)
    decreases n
  {
    if n < 10 then [DigitChar(n)] else FormatUint(n / 10) + [DigitChar(n % 10)]
  }

  /** Parsing what `FormatUint` writes gives the number back. */
  lemma {:induction false} DecimalValueOfFormat(n: nat)
    ensures DecimalValue(FormatUint(n)) == n
    decreases n
  {
    var s := FormatUint(n);
    if n >= 10 {
      DecimalValueOfFormat(n / 10);
      assert s[..|s| - 1] == FormatUint(n / 10);
    }
  }

  lemma ParseFormatUint(n: nat)
    requires n <= MaxUint64
    ensures ParseUint(FormatUint(n)) == Some(n)
  {
    DecimalValueOfFormat(n);
  }

  /** Digits without a leading zero, except for "0" itself. */
  predicate IsCanonical(s: string) {
    |s| > 0 && AllDigits(s) && (|s| == 1 || s[0] != '0')
  }

  function Pow10(k: nat): nat {
    if k == 0 then 1 else 10 * Pow10(k - 1)
  }

  /** A number written without leading zeros is at least 10 to the number of its digits less one. */
  lemma {:induction false} CanonicalValueLowerBound(s: string)
    requires IsCanonical(s) && s[0] != '0'
    ensures DecimalValue(s) >= Pow10(|s| - 1)
    decreases |s|
  {
    var pre := s[..|s| - 1];
    if |s| >= 2 {
      assert pre[0] == s[0];
      CanonicalValueLowerBound(pre);
    } else {
      assert pre == [];
      assert DecimalValue(s) == DigitValue(s[0]);
    }
  }

  /** More than twenty digits without a leading zero never fit in 64 bits. */
  lemma ParseUintRejectsLong(s: string)
    requires IsCanonical(s) && |s| > 20
    ensures ParseUint(s) == None
  {
    CanonicalValueLowerBound(s);
    Pow10Grows(20, |s| - 1);
    assert Pow10(5) == 100_000;
    Pow10Add(5, 5);
    Pow10Add(10, 10);
  }

  lemma {:induction false} Pow10Add(a: nat, b: nat)
    ensures Pow10(a + b) == Pow10(a) * Pow10(b)
    decreases b
  {
    if b > 0 {
      Pow10Add(a, b - 1);
      assert Pow10(a + b) == 10 * Pow10(a + b - 1);
    }
  }

  lemma {:induction false} Pow10Grows(j: nat, k: nat)
    requires j <= k
    ensures Pow10(j) <= Pow10(k)
    decreases k
  {
    if j < k {
      Pow10Grows(j, k - 1);
    }
  }

  /** Writing back a parsed number without leading zeros gives the same digits. */
  lemma {:induction false} FormatDecimalValue(s: string)
    requires IsCanonical(s)
    ensures FormatUint(DecimalValue(s)) == s
    decreases |s|
  {
    var n := DecimalValue(s);
    if |s| >= 2 {
      var pre := s[..|s| - 1];
      assert pre[0] == s[0];
      CanonicalValueLowerBound(pre);
      assert n / 10 == DecimalValue(pre) && n % 10 == DigitValue(s[|s| - 1]);
      FormatDecimalValue(pre);
      assert s == pre + [s[|s| - 1]];
    }
  }

  /** `ParseUint` accepts a canonical id exactly when it fits, and then `FormatUint` writes it back. */
  lemma ParseUintRoundTrip(s: string)
    requires IsCanonical(s)
    ensures ParseUint(s).Some? <==> DecimalValue(s) <= MaxUint64
    ensures ParseUint(s).Some? ==> FormatUint(ParseUint(s).value) == s
  {
    if ParseUint(s).Some? {
      FormatDecimalValue(s);
    }
  }

  // ---------------------------------------------------------------------------
  // The handlers' arguments

  /** `mux.Vars(r)[key]`: a missing variable reads as the empty string. */
  function Var(vars: map<string, string>, key: string): string {
    if key in vars then vars[key] else ""
  }

  datatype IntegrationArgs = IntegrationArgs(name: string, projectId: nat)

  /** `getIntegrationsArgs(r)`, on the path variables of `r`. */
  function GetIntegrationsArgs(vars: map<string, string>): (r: Result<IntegrationArgs, string>)
    ensures r.Success? ==> r.value.name == Var(vars, "name") != ""
    ensures r.Success? ==> 1 <= r.value.projectId <= MaxUint64
    ensures r.Success? ==> AllDigits(Var(vars, "project")) && r.value.projectId == DecimalValue(Var(vars, "project"))
  {
    var name := Var(vars, "name");
    if name == "" then Failure(EmptyIntegrationName)
    else
      var project := Var(vars, "project");
      if project == "" then Failure(EmptyProjectId)
      else match ParseUint(project)
        case None => Failure(InvalidProjectId)
        case Some(projId) => if projId <= 0 then Failure(InvalidProjectId) else Success(IntegrationArgs(name, projId))
  }

  /**
   * The name is checked before the project; a project that is there but
   * does not parse as a positive 64-bit number is invalid.
   */
  lemma GetIntegrationsArgsErrors(vars: map<string, string>)
    ensures Var(vars, "name") == "" ==> GetIntegrationsArgs(vars) == Failure(EmptyIntegrationName)
    ensures Var(vars, "name") != "" && Var(vars, "project") == "" ==> GetIntegrationsArgs(vars) == Failure(EmptyProjectId)
    ensures var project := Var(vars, "project");
            Var(vars, "name") != "" && project != "" ==>
              (GetIntegrationsArgs(vars) == Failure(InvalidProjectId) <==>
                 !AllDigits(project) || DecimalValue(project) == 0 || DecimalValue(project) > MaxUint64)
  {
  }

  /** Any positive 64-bit project id, written in decimal, comes back with the name unchanged. */
  lemma GetIntegrationsArgsAccepts(vars: map<string, string>, name: string, projId: nat)
    requires name != "" && 1 <= projId <= MaxUint64
    requires Var(vars, "name") == name && Var(vars, "project") == FormatUint(projId)
    ensures GetIntegrationsArgs(vars) == Success(IntegrationArgs(name, projId))
  {
    ParseFormatUint(projId);
  }

  /** `getIntegrationSession(r)`, on the path variables of `r`. */
  function GetIntegrationSession(vars: map<string, string>): (r: Result<nat, string>)
    ensures r.Success? ==> 1 <= r.value <= MaxUint64
    ensures r.Success? ==> AllDigits(Var(vars, "session")) && r.value == DecimalValue(Var(vars, "session"))
  {
    var session := Var(vars, "session");
    if session == "" then Failure(EmptySessionId)
    else match ParseUint(session)
      case None => Failure(InvalidSessionId)
      case Some(sessId) => if sessId <= 0 then Failure(InvalidSessionId) else Success(sessId)
  }

  /** A missing session is reported as such; one that is not a positive 64-bit number is invalid. */
  lemma GetIntegrationSessionErrors(vars: map<string, string>)
    ensures Var(vars, "session") == "" ==> GetIntegrationSession(vars) == Failure(EmptySessionId)
    ensures var session := Var(vars, "session");
            session != "" ==>
              (GetIntegrationSession(vars) == Failure(InvalidSessionId) <==>
                 !AllDigits(session) || DecimalValue(session) == 0 || DecimalValue(session) > MaxUint64)
  {
  }

  lemma GetIntegrationSessionAccepts(vars: map<string, string>, sessId: nat)
    requires 1 <= sessId <= MaxUint64 && Var(vars, "session") == FormatUint(sessId)
    ensures GetIntegrationSession(vars) == Success(sessId)
  {
    ParseFormatUint(sessId);
  }

  /** Zero and a sign are rejected, a missing id is reported as empty, and leading zeros are allowed. */
  lemma SessionIdExamples()
    ensures GetIntegrationSession(map["session" := "0"]) == Failure(InvalidSessionId)
    ensures GetIntegrationSession(map["session" := "+7"]) == Failure(InvalidSessionId)
    ensures GetIntegrationSession(map["session" := "007"]) == Success(7)
    ensures GetIntegrationSession(map[]) == Failure(EmptySessionId)
  {
    assert !IsDigit('+');
    assert DecimalValue("0") == 0;
    assert DecimalValue("007") == 7 by {
      assert "007"[..2] == "00" && "00"[..1] == "0" && "0"[..0] == "";
    }
  }
}
