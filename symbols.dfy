/** The named constants the dispatcher compares against and emits.
    Their literal values live in a header that is not part of this model, so every
    constant is a symbolic string carried by a `Constants` record; the only thing
    assumed about them is that different names stand for different strings. */
module Symbols {

  /** The six HTTP verbs a servlet has a handler for. */
  datatype Verb = Get | Post | Put | Delete | Options | Trace

  /** The file extensions the static-file branch recognises, one per named constant. */
  datatype ExtKey =
    | Html | Htm | Css | Txt | Php | Ico | Png | Gif | Bmp | Jpe | Jpg | Tiff | Tif
    | Svg | Svgz | Pdf | Xml | Json | Zip | Mp3 | Mp4 | Flv | Doc | Rtf | Xls | Ppt
    | Js | Odt | Ods | Swf | Rar | Exe | Msi | Cab | Psd | Ai | Eps | Ps | Ini

  /** The fixed content-type constants the static-file branch emits. */
  datatype MimeKey =
    | TextHtmlUtf8 | ImageMicrosoftIco | ImageJpeg | ImageTiff | ImageSvgXml
    | AudioMp3 | AudioMp4 | VideoFlv | ApplicationMsword | ApplicationRtf
    | ApplicationExcel | ApplicationPowerPoint | ApplicationJavascript
    | ApplicationOpenDocumentText | ApplicationOpenDocumentSpreadsheet
    | ApplicationShockwaveFlash | ApplicationRarCompressed | ApplicationMsDownload
    | ApplicationCabCompressed | ApplicationPhotoshop | ApplicationPostscript

  /** The values of the constants, left symbolic. */
  datatype Constants = Constants(
    methodName: Verb -> string,     // the request-method constants, one per verb
    extName: ExtKey -> string,      // the file-extension constants
    mimeName: MimeKey -> string,    // the fixed content-type constants
    bar: string,                    // the URL of the site root
    cppWebIni: string,              // the file name of the framework's own configuration file
    status401: string,              // dispatch target of the "unauthorised" page
    status404: string,              // dispatch target of the "not found" page
    contentTypeHeader: string,      // the header name used when a file is served
    scNotFound: int,                // the response's not-found status code
    notFoundMessage: string         // the reason phrase set with that status code
  )

  /** Distinct constant names stand for distinct strings. */
  predicate WellFormed(c: Constants) {
    (forall a: Verb, b: Verb :: c.methodName(a) == c.methodName(b) ==> a == b) &&
    (forall a: ExtKey, b: ExtKey :: c.extName(a) == c.extName(b) ==> a == b)
  }

  /** No other extension has the same constant as `k`. */
  predicate UniqueExt(c: Constants, k: ExtKey) {
    forall j: ExtKey :: c.extName(j) == c.extName(k) ==> j == k
  }
}
