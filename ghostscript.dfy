/** The pure part of `compress` (zoterobulkcompression.py, lines 101-133): the quality
    table, the checks on the input that end the run, and the Ghostscript command line. */
module Ghostscript {
  import opened Text
  import opened Vault
  import opened Markers

  /** The `quality` table: power 0 to 4, from the highest fidelity to the smallest file.
      Any other power is a `KeyError`. */
  function Quality(power: int): (r: Option<string>)
    ensures r.Some? <==> 0 <= power <= MaxPower
  {
    if power == 0 then Some("/default")
    else if power == 1 then Some("/prepress")
    else if power == 2 then Some("/printer")
    else if power == 3 then Some("/ebook")
    else if power == 4 then Some("/screen")
    else None
  }

  /** Each power has its own preset: the table loses no information. */
  lemma QualityIsInjective(p: int, q: int)
    requires Quality(p).Some? && Quality(p) == Quality(q)
    ensures p == q
  {
  }

  /** The argument vector handed to `subprocess.call`. */
  function GsArgv(gsPath: string, preset: string, output: string, input: string): seq<string>
  {
    [gsPath, "-sDEVICE=pdfwrite", "-dCompatibilityLevel=1.4",
     "-dPDFSETTINGS=" + preset,
     "-dNOPAUSE", "-dQUIET", "-dBATCH",
     "-sOutputFile=" + output,
     input]
  }

  /** `compress` up to the subprocess: the path must name a regular file, its last
      dot-segment must be `pdf` in any case, and the power must have a preset; each
      failure ends the run before any subprocess. Otherwise the fixed command line. */
  function CompressCommand(gsPath: string, input: string, output: string, inputIsFile: bool, power: int)
    : (r: Result<seq<string>, Fault>)
    ensures r == Err(InputNotAFile) <==> !inputIsFile
    ensures r == Err(InputNotPdf) <==> inputIsFile && !IsPdfName(input)
    ensures r == Err(UnknownPower(power)) <==> inputIsFile && IsPdfName(input) && !(0 <= power <= MaxPower)
    ensures r.Ok? <==> inputIsFile && IsPdfName(input) && 0 <= power <= MaxPower
  {
    if !inputIsFile then Err(InputNotAFile)
    else if !IsPdfName(input) then Err(InputNotPdf)
    else match Quality(power)
      case None => Err(UnknownPower(power))
      case Some(preset) => Ok(GsArgv(gsPath, preset, output, input))
  }

  /** The command line of an accepted input, argument by argument: Ghostscript itself,
      the `pdfwrite` device, compatibility level 1.4, the preset of the power, no pause,
      quiet, batch mode, the output file, and the input last. */
  lemma CompressCommandLine(gsPath: string, input: string, output: string, inputIsFile: bool, power: int)
    requires CompressCommand(gsPath, input, output, inputIsFile, power).Ok?
    ensures var argv := CompressCommand(gsPath, input, output, inputIsFile, power).value;
      && |argv| == 9
      && argv[0] == gsPath
      && argv[1] == "-sDEVICE=pdfwrite"
      && argv[2] == "-dCompatibilityLevel=1.4"
      && argv[3] == "-dPDFSETTINGS=" + Quality(power).value
      && argv[4] == "-dNOPAUSE"
      && argv[5] == "-dQUIET"
      && argv[6] == "-dBATCH"
      && argv[7] == "-sOutputFile=" + output
      && argv[8] == input
  {
  }
}
