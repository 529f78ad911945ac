/**
 * The command side of rbxplugin.go: the character-range test, the memoised build and
 * the argument checks Deploy and Create make before they build (rbxplugin.go:32-133).
 */
module Plugin {
  import opened Wrappers
  import opened Escape

  // ---------------------------------------------------------------------------------------
  // isInCharacterRange (rbxplugin.go:126-133) and the Char production of XML 1.0.

  /**
   * isInCharacterRange as written: tab, newline, carriage return, and three ranges of code
   * points, the first of which ends at 0xDF77.
   */
  function IsInCharacterRange(r: int): (inrange: bool)
    ensures r < 0x20 ==> (inrange <==> r == 0x09 || r == 0x0A || r == 0x0D)
    ensures 0x20 <= r <= 0xDF77 ==> inrange
    ensures 0xDF78 <= r <= 0xDFFF ==> !inrange
    ensures 0xE000 <= r <= 0xFFFD ==> inrange
    ensures r == 0xFFFE || r == 0xFFFF ==> !inrange
    ensures 0x10000 <= r <= 0x10FFFF ==> inrange
    ensures r > 0x10FFFF ==> !inrange
  {
    r == 0x09 || r == 0x0A || r == 0x0D
    || (0x20 <= r <= 0xDF77)
    || (0xE000 <= r <= 0xFFFD)
    || (0x10000 <= r <= 0x10FFFF)
  }

  /** A Unicode scalar value: a code point that is not a surrogate. */
  predicate ScalarValue(r: int) {
    0 <= r <= 0x10FFFF && !(0xD800 <= r <= 0xDFFF)
  }

  /**
   * The Char production of section 2.2 of XML 1.0: #x9 | #xA | #xD | [#x20-#xD7FF] |
   * [#xE000-#xFFFD] | [#x10000-#x10FFFF].
   */
  function IsXmlChar(r: int): (ok: bool)
    ensures ok ==> ScalarValue(r)
    ensures ScalarValue(r) ==> (ok <==> !(r < 0x20 && r != 0x09 && r != 0x0A && r != 0x0D) && r != 0xFFFE && r != 0xFFFF)
  {
    r == 0x09 || r == 0x0A || r == 0x0D
    || (0x20 <= r <= 0xD7FF)
    || (0xE000 <= r <= 0xFFFD)
    || (0x10000 <= r <= 0x10FFFF)
  }

  /**
   * The two tests disagree exactly on 0xD800 .. 0xDF77, the surrogates below the code's
   * bound, which the code accepts and the production does not.
   */
  lemma CharRangeVersusXml(r: int)
    ensures IsInCharacterRange(r) != IsXmlChar(r) <==> 0xD800 <= r <= 0xDF77
    ensures IsInCharacterRange(r) != IsXmlChar(r) ==> IsInCharacterRange(r) && !ScalarValue(r)
  {
  }

  /** The first surrogate is accepted as written though it is no character at all. */
  lemma SurrogateAccepted()
    ensures IsInCharacterRange(0xD800) && !IsXmlChar(0xD800) && !ScalarValue(0xD800)
  {
  }

  // ---------------------------------------------------------------------------------------
  // Build (rbxplugin.go:32-43).

  /**
   * One call of Build on the cached results, given what WriteRBXM would return: with
   * results cached they are returned and the outcome is not used; otherwise a success is
   * returned and becomes the cache, and a failure is returned with the cache as it was.
   */
  function Built(cache: seq<byte>, outcome: Result<seq<byte>, string>): (r: (Result<seq<byte>, string>, seq<byte>))
    ensures cache != [] ==> r == (Ok(cache), cache)
    ensures cache == [] && outcome.Ok? ==> r == (Ok(outcome.value), outcome.value)
    ensures cache == [] && outcome.Err? ==> r == (Err(outcome.error), cache)
  {
    if |cache| == 0 then
      match outcome
      case Err(e) => (Err(e), cache)
      case Ok(bytes) => (Ok(bytes), bytes)
    else (Ok(cache), cache)
  }

  /**
   * Once a build has produced non-empty results, every later Build returns those same
   * bytes, whatever a new build would have given.
   */
  lemma BuiltStable(cache: seq<byte>, first: Result<seq<byte>, string>, later: Result<seq<byte>, string>)
    requires Built(cache, first).1 != []
    ensures Built(Built(cache, first).1, later) == (Ok(Built(cache, first).1), Built(cache, first).1)
    ensures Built(cache, first).0 == Ok(Built(cache, first).1)
  {
  }

  /** The package-level `buildResults` and the operations that read and update it. */
  class BuildCache {
    var results: seq<byte>

    constructor ()
      ensures results == []
    {
      results := [];
    }

    /** Build, with WriteRBXM's outcome for the input given (it is used only on a miss). */
    method Build(outcome: Result<seq<byte>, string>) returns (r: Result<seq<byte>, string>)
      modifies this
      ensures (r, results) == Built(old(results), outcome)
    {
      if |results| == 0 {
        if outcome.Err? {
          return Err(outcome.error);
        }
        results := outcome.value;
      }
      return Ok(results);
    }

    /**
     * Deploy up to the upload (rbxplugin.go:45-61): the argument checks, then Build; the
     * result is what would be uploaded.
     */
    method Deploy(opts: Opts, outcome: Result<seq<byte>, string>) returns (r: Result<seq<byte>, string>)
      modifies this
      ensures DeployCheck(opts).Some? ==> r == Err(DeployCheck(opts).value) && results == old(results)
      ensures DeployCheck(opts).None? ==> (r, results) == Built(old(results), outcome)
    {
      var check := DeployCheck(opts);
      if check.Some? {
        return Err(check.value);
      }
      r := Build(outcome);
    }

    /** Create up to the upload (rbxplugin.go:86-98). */
    method Create(opts: Opts, outcome: Result<seq<byte>, string>) returns (r: Result<seq<byte>, string>)
      modifies this
      ensures CreateCheck(opts).Some? ==> r == Err(CreateCheck(opts).value) && results == old(results)
      ensures CreateCheck(opts).None? ==> (r, results) == Built(old(results), outcome)
    {
      var check := CreateCheck(opts);
      if check.Some? {
        return Err(check.value);
      }
      r := Build(outcome);
    }
  }

  // ---------------------------------------------------------------------------------------
  // The argument checks of Deploy and Create (rbxplugin.go:45-56, 86-93).

  /** The options the checks read; Asset is an int64 on the command line. */
  datatype Opts = Opts(username: string, password: string, asset: int)

  /** What the error messages say is missing, after the operation's name. */
  const NoUsername := " requires a username to be specified"
  const NoPassword := " requires a password to be specified"
  const NoAsset := " requires an asset id to be specified"

  /** Deploy's checks, in order: a username, a password, then a non-zero asset id. */
  function DeployCheck(opts: Opts): (err: Option<string>)
    ensures err.None? <==> opts.username != "" && opts.password != "" && opts.asset != 0
    ensures opts.username == "" ==> err == Some("Deployment" + NoUsername)
    ensures opts.username != "" && opts.password == "" ==> err == Some("Deployment" + NoPassword)
    ensures opts.username != "" && opts.password != "" && opts.asset == 0 ==> err == Some("Deployment" + NoAsset)
  {
    if opts.username == "" then Some("Deployment" + NoUsername)
    else if opts.password == "" then Some("Deployment" + NoPassword)
    else if opts.asset == 0 then Some("Deployment" + NoAsset)
    else None
  }

  /** Create's checks, in order: a username, then a password; the asset id is not read. */
  function CreateCheck(opts: Opts): (err: Option<string>)
    ensures err.None? <==> opts.username != "" && opts.password != ""
    ensures opts.username == "" ==> err == Some("Creating" + NoUsername)
    ensures opts.username != "" && opts.password == "" ==> err == Some("Creating" + NoPassword)
  {
    if opts.username == "" then Some("Creating" + NoUsername)
    else if opts.password == "" then Some("Creating" + NoPassword)
    else None
  }

  /**
   * Whatever Deploy accepts, Create accepts; the two reject a missing credential with the
   * same words after their own names; only Deploy needs an asset id.
   */
  lemma ChecksAgree(opts: Opts)
    ensures DeployCheck(opts).None? ==> CreateCheck(opts).None?
    ensures CreateCheck(opts).Some? ==>
      |CreateCheck(opts).value| >= 8 && DeployCheck(opts) == Some("Deployment" + CreateCheck(opts).value[8..])
    ensures CreateCheck(opts).None? && DeployCheck(opts).Some? <==> CreateCheck(opts).None? && opts.asset == 0
  {
    assert ("Creating" + NoUsername)[8..] == NoUsername;
    assert ("Creating" + NoPassword)[8..] == NoPassword;
  }
}
