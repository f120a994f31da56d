/** One row of the editor grid (ViewModels/TranslationPairViewModel.cs): the
    text and the placeholder metadata of one key in one document. Edits are
    written straight into that document's dictionaries. */
module TranslationPairViewModels {
  import opened Wrappers
  import opened DotNetText
  import opened JsonModel
  import opened Observable
  import opened Models

  /** What a row shows for a placeholder: its rendered text, or the empty
      string when the document has none for the key. */
  function PlaceholderText(placeholder: Option<seq<Prop>>, codec: Codec): (t: string)
    ensures placeholder.None? ==> t == ""
    ensures placeholder.Some? ==> t == ValueText(JObject(placeholder.value), codec)
  {
    match placeholder
    case None => ""
    case Some(p) => codec.render(JObject(p))
  }

  class TranslationPairViewModel {
    const arbFile: ArbFile
    const key: string
    /** The JSON library the row parses and renders placeholders with. */
    const codec: Codec
    var translation: string
    var placeholderJson: string

    constructor (arbFile: ArbFile, key: string, translation: string, placeholder: Option<seq<Prop>>, codec: Codec)
      ensures this.arbFile == arbFile && this.key == key && this.codec == codec
      ensures this.translation == translation
      ensures placeholderJson == PlaceholderText(placeholder, codec)
    {
      this.arbFile := arbFile;
      this.key := key;
      this.codec := codec;
      this.translation := translation;
      placeholderJson := PlaceholderText(placeholder, codec);
    }

    /** The `Translation` setter: a changed text is cached and stored under
        the row's key, adding the key if the document lacked it. */
    method SetTranslation(value: string) returns (changed: bool)
      modifies this`translation, arbFile`translations
      ensures changed <==> value != old(translation)
      ensures translation == value
      ensures arbFile.translations == if changed then old(arbFile.translations)[key := value] else old(arbFile.translations)
    {
      var update := SetProperty(translation, value);
      translation, changed := update.0, update.1;
      if changed {
        arbFile.translations := arbFile.translations[key := value];
      }
    }

    /** The `PlaceholderJson` setter: a changed text is cached; blank text
        drops the key's placeholder, text that parses as an object replaces
        it, and text that does not parse leaves the document as it was. */
    method SetPlaceholderJson(value: string) returns (changed: bool)
      modifies this`placeholderJson, arbFile`placeholders
      ensures changed <==> value != old(placeholderJson)
      ensures placeholderJson == value
      ensures !changed ==> arbFile.placeholders == old(arbFile.placeholders)
      ensures changed && IsNullOrWhiteSpace(value) ==> arbFile.placeholders == old(arbFile.placeholders) - {key}
      ensures changed && !IsNullOrWhiteSpace(value) && codec.parseObject(value).Some? ==>
        arbFile.placeholders == old(arbFile.placeholders)[key := codec.parseObject(value).value]
      ensures changed && !IsNullOrWhiteSpace(value) && codec.parseObject(value).None? ==>
        arbFile.placeholders == old(arbFile.placeholders)
    {
      var update := SetProperty(placeholderJson, value);
      placeholderJson, changed := update.0, update.1;
      if changed {
        if IsNullOrWhiteSpace(value) {
          arbFile.placeholders := arbFile.placeholders - {key};
        } else {
          var placeholder := codec.parseObject(value);
          match placeholder {
            case Some(obj) =>
              arbFile.placeholders := arbFile.placeholders[key := obj];
            case None =>
              // invalid JSON is ignored
          }
        }
      }
    }
  }
}
