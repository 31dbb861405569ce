/** The script store of agent/tools.py: the UI dump and the Selenium script
    are two files that may or may not exist, the script is only ever written
    when it parses, and it is only run when it parses. */
module Tools {
  import opened Wrappers
  import opened Text

  /** What `ast.parse` makes of a text: a tree, or a SyntaxError and its message. */
  datatype ParseResult = Parsed | SyntaxError(message: string)

  /** `ast.parse`, which the model takes as given rather than as a grammar. */
  type Parser = string -> ParseResult

  predicate Parses(parser: Parser, code: string) {
    parser(code).Parsed?
  }

  const UiDumpMissing := "ERROR: ui_dump.json not found."
  const ScriptMissing := "ERROR: selenium_action_script.py not found."
  const EmptyCode := "ERROR: Empty code received."
  const Written := "SUCCESS: Selenium script written"
  const RunScriptMissing := "ERROR: Selenium script not found"

  /** `f"REJECTED: Invalid Python → {e}"` */
  function Rejected(message: string): string {
    "REJECTED: Invalid Python → " + message
  }

  /** `f"ERROR: Script is invalid → {e}"` */
  function Invalid(message: string): string {
    "ERROR: Script is invalid → " + message
  }

  /** The two files the tools work on: `ui_dump.json` and
      `selenium_action_script.py`, None when absent. */
  class Workspace {
    var uiDump: Option<string>
    var scriptFile: Option<string>
    const parser: Parser

    /** The stored script, if any, parses. */
    predicate ScriptValid()
      reads this
    {
      scriptFile.Some? ==> Parses(parser, scriptFile.value)
    }

    constructor (uiDump: Option<string>, scriptFile: Option<string>, parser: Parser)
      ensures this.uiDump == uiDump && this.scriptFile == scriptFile && this.parser == parser
    {
      this.uiDump := uiDump;
      this.scriptFile := scriptFile;
      this.parser := parser;
    }

    /** `read_ui_json`: the dump's content, or the not-found sentinel. */
    function ReadUiJson(): (r: string)
      reads this
      ensures uiDump.None? ==> r == UiDumpMissing
      ensures uiDump.Some? ==> r == uiDump.value
    {
      match uiDump
      case None => UiDumpMissing
      case Some(content) => content
    }

    /** `read_selenium_script`: the script's content, or the not-found sentinel. */
    function ReadSeleniumScript(): (r: string)
      reads this
      ensures scriptFile.None? ==> r == ScriptMissing
      ensures scriptFile.Some? ==> r == scriptFile.value
    {
      match scriptFile
      case None => ScriptMissing
      case Some(content) => content
    }

    /** `write_selenium_script`: whitespace-only and unparseable code is
        refused and the file is left alone; anything else replaces the whole
        file. */
    method WriteSeleniumScript(code: string) returns (msg: string)
      modifies this`scriptFile
      ensures AllSpace(code) ==> msg == EmptyCode && scriptFile == old(scriptFile)
      ensures !AllSpace(code) && !Parses(parser, code) ==>
        msg == Rejected(parser(code).message) && scriptFile == old(scriptFile)
      ensures !AllSpace(code) && Parses(parser, code) ==>
        msg == Written && scriptFile == Some(code) && ReadSeleniumScript() == code
      ensures scriptFile != old(scriptFile) ==> scriptFile.Some? && Parses(parser, scriptFile.value)
      ensures old(ScriptValid()) ==> ScriptValid()
    {
      StripEmpty(code);
      if Strip(code) == [] {
        return EmptyCode;
      }
      match parser(code)
      case SyntaxError(e) =>
        return Rejected(e);
      case Parsed =>
        scriptFile := Some(code);
        return Written;
    }

    /** `run_selenium`: a missing or unparseable script is not run; otherwise
        the result is what running it printed, which `execution` stands for. */
    function RunSelenium(execution: string): (output: string)
      reads this
      ensures scriptFile.None? ==> output == RunScriptMissing
      ensures scriptFile.Some? && !Parses(parser, scriptFile.value) ==>
        output == Invalid(parser(scriptFile.value).message)
      ensures ScriptValid() && scriptFile.Some? ==> output == execution
    {
      match scriptFile
      case None => RunScriptMissing
      case Some(code) =>
        match parser(code)
        case SyntaxError(e) => Invalid(e)
        case Parsed => execution
    }

    /** `read_ui_json_tool`: the tool input is ignored. */
    function ReadUiJsonTool(toolInput: string): (r: string)
      reads this
      ensures r == ReadUiJson()
    {
      ReadUiJson()
    }

    /** `read_selenium_script_tool`: the tool input is ignored. */
    function ReadSeleniumScriptTool(toolInput: string): (r: string)
      reads this
      ensures r == ReadSeleniumScript()
    {
      ReadSeleniumScript()
    }

    /** `write_selenium_script_tool`: the tool input is the code, unchanged. */
    method WriteSeleniumScriptTool(toolInput: string) returns (msg: string)
      modifies this`scriptFile
      ensures AllSpace(toolInput) ==> msg == EmptyCode && scriptFile == old(scriptFile)
      ensures !AllSpace(toolInput) && !Parses(parser, toolInput) ==>
        msg == Rejected(parser(toolInput).message) && scriptFile == old(scriptFile)
      ensures !AllSpace(toolInput) && Parses(parser, toolInput) ==>
        msg == Written && scriptFile == Some(toolInput)
    {
      msg := WriteSeleniumScript(toolInput);
    }

    /** `run_selenium_tool`: the tool input is ignored. */
    function RunSeleniumTool(toolInput: string, execution: string): (output: string)
      reads this
      ensures output == RunSelenium(execution)
    {
      RunSelenium(execution)
    }
  }

  /** The read and run wrappers give the same reply whatever their tool input. */
  lemma ToolInputIgnored(ws: Workspace, a: string, b: string, execution: string)
    ensures ws.ReadUiJsonTool(a) == ws.ReadUiJsonTool(b)
    ensures ws.ReadSeleniumScriptTool(a) == ws.ReadSeleniumScriptTool(b)
    ensures ws.RunSeleniumTool(a, execution) == ws.RunSeleniumTool(b, execution)
  {
  }
}
