/** The bundled main.js `getRendererParameters(type, inputFile, outputFile)`:
    per block type, the external programs to run on the written source and
    whether their SVG output is recoloured. The programs' paths come from
    the plugin settings and are named here by the setting they come from;
    `getTempDir(type)` is passed in as `tempDir`. */
module Renderers {

  /** The plugin setting that holds a program's path. */
  datatype Setting = DotPath | PdflatexPath | Pdf2svgPath | DitaaPath | BlockdiagPath | AsciidocPath | PlantumlPath

  /** One program run: its path and its arguments. */
  datatype Exec = Exec(path: Setting, options: seq<string>)

  /** `{ execParams, skipDynamicSvg }`. */
  datatype RendererParams = RendererParams(execParams: seq<Exec>, skipDynamicSvg: bool)

  /** The types whose output is recoloured. */
  predicate Recolours(type_: string) {
    type_ == "dot" || type_ == "latex" || type_ == "ditaa" || type_ == "blockdiag" || type_ == "plantuml"
  }

  /** The types with a case of their own. */
  predicate Known(type_: string) {
    Recolours(type_) || type_ == "asciidoc"
  }

  /** The programs whose command line names the output file: the rest
      write it next to the input by their own convention. */
  predicate NamesOutput(type_: string) {
    type_ == "dot" || type_ == "latex" || type_ == "blockdiag" || type_ == "asciidoc"
  }

  /** The switch on `type`. */
  function GetRendererParameters(type_: string, inputFile: string, outputFile: string, tempDir: string): (r: RendererParams)
    ensures r.skipDynamicSvg <==> !Recolours(type_)
    ensures |r.execParams| == 0 <==> !Known(type_)
    ensures |r.execParams| == 2 <==> type_ == "latex"
    ensures |r.execParams| <= 2
    ensures Known(type_) ==> inputFile in r.execParams[0].options
    ensures NamesOutput(type_) ==> outputFile in r.execParams[|r.execParams| - 1].options
    ensures type_ == "latex" ==>
      && r.execParams[0].path == PdflatexPath && r.execParams[1].path == Pdf2svgPath
      && r.execParams[1].options[0] == inputFile + ".pdf"
  {
    match type_
    case "dot" => RendererParams([Exec(DotPath, ["-Tsvg", inputFile, "-o", outputFile])], false)
    case "latex" => RendererParams([Exec(PdflatexPath, ["-shell-escape", "-output-directory", tempDir, inputFile]),
                                    Exec(Pdf2svgPath, [inputFile + ".pdf", outputFile])], false)
    case "ditaa" => RendererParams([Exec(DitaaPath, [inputFile, "--transparent", "--svg", "--overwrite"])], false)
    case "blockdiag" => RendererParams([Exec(BlockdiagPath, ["--antialias", "-Tsvg", inputFile, "-o", outputFile])], false)
    case "asciidoc" => RendererParams([Exec(AsciidocPath, ["-e", inputFile, "-o", outputFile])], true)
    case "plantuml" => RendererParams([Exec(PlantumlPath, ["-nbthread", "auto", "-failfast2", "-tsvg", "-nometadata",
                                                          "-overwrite", inputFile])], false)
    case _ => RendererParams([], true)
  }
}
