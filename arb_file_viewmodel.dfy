/** The list entry for one loaded document (ViewModels/ArbFileViewModel.cs):
    it caches the document's language code and writes an edited code back. */
module ArbFileViewModels {
  import opened Observable
  import opened Models

  class ArbFileViewModel {
    /** The wrapped document; the reference never changes. */
    const arbFile: ArbFile
    var languageCode: string

    constructor (arbFile: ArbFile)
      ensures this.arbFile == arbFile
      ensures languageCode == arbFile.languageCode
    {
      this.arbFile := arbFile;
      languageCode := arbFile.languageCode;
    }

    /** The `LanguageCode` setter: a changed code is cached and copied into
        the document; the cached code written again changes nothing. Only
        the document's `languageCode` can be written. */
    method SetLanguageCode(value: string) returns (changed: bool)
      modifies this`languageCode, arbFile`languageCode
      ensures changed <==> value != old(languageCode)
      ensures languageCode == value
      ensures arbFile.languageCode == if changed then value else old(arbFile.languageCode)
    {
      var update := SetProperty(languageCode, value);
      languageCode, changed := update.0, update.1;
      if changed {
        arbFile.languageCode := value;
      }
    }
  }
}
