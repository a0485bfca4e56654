/** What the converter takes from libraries it does not implement, and the
    run modes it reports (MultipleMaidsConverter/Program.cs, `Mode`). */
module Library {
  import opened Common
  import opened Lzma
  import opened Text

  /** A date formatted as `yyyyMMddHHmm`: twelve decimal digits. */
  type Stamp = s: string | |s| == 12 && AllDigits(s) witness "000000000000"

  /** The library calls the converter makes, as functions of their inputs. A
      call that can throw gives `None` when it does. */
  datatype Env = Env(
    // the SevenZip LZMA coder
    coder: Coder,
    // the screenshot embedded in the program's resources
    defaultImage: seq<byte>,
    // `Encoding.ASCII.GetBytes`
    asciiBytes: string -> seq<byte>,
    // `Encoding.UTF8.GetString`
    utf8Text: seq<byte> -> string,
    // `Convert.ToBase64String`
    toBase64: seq<byte> -> string,
    // `Convert.FromBase64String`
    fromBase64: string -> Option<seq<byte>>,
    // `DateTime.Parse`, then formatting as `yyyyMMddHHmm`
    dateStamp: string -> Option<Stamp>)

  /** `Mode`: what was found on the command line, then how the run ended. */
  datatype Mode = Png | Ini | Error | Success

  /** How a conversion run ends: with a mode, or with an exception that
      nothing catches. */
  datatype RunResult = Finished(mode: Mode) | Aborted(failure: Failure)
}
