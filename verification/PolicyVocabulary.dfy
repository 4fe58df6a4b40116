/** The policy's licence recognisers are those of the SPDX expression parser. */
module PolicyVocabulary {
  import opened Text
  import SpdxText
  import Policy

  function LicenseVocabulary(isCoordinates: Policy.Coordinates -> bool, isAdvisory: string -> bool,
                             allowed: set<string>, pairs: set<string>): Policy.Vocabulary
  {
    Policy.Vocabulary(isCoordinates, isAdvisory,
                      expression => SpdxText.ParsesOnce(expression),
                      expression => SpdxText.Evaluate(expression, {}, {}).Some?,
                      expression => SpdxText.IsUnknown(expression),
                      license => SpdxText.LicenseAllowed(license, allowed, pairs))
  }

  /** So a component that passed its checks is never refused later for its licence text. */
  lemma LicenseVocabularyCoherent(isCoordinates: Policy.Coordinates -> bool, isAdvisory: string -> bool,
                                  allowed: set<string>, pairs: set<string>)
    ensures Policy.Coherent(LicenseVocabulary(isCoordinates, isAdvisory, allowed, pairs))
  {
    var voc := LicenseVocabulary(isCoordinates, isAdvisory, allowed, pairs);
    forall e | voc.parses(e) ensures voc.verdict(Some(e)).Some? {
      SpdxText.CheckedNeverFails(e, allowed, pairs);
    }
  }

  /** Nor does the expression of a valid licence waiver ever fail. */
  lemma WaivedLicenseNeverFails(isCoordinates: Policy.Coordinates -> bool, isAdvisory: string -> bool,
                                allowed: set<string>, pairs: set<string>, w: Policy.Waiver)
    requires Policy.ValueFits(LicenseVocabulary(isCoordinates, isAdvisory, allowed, pairs), w) && w.kind.ForLicense?
    ensures w.value == "NOASSERTION"
            || LicenseVocabulary(isCoordinates, isAdvisory, allowed, pairs).verdict(Some(w.value)).Some?
  {
    if w.value != "NOASSERTION" {
      SpdxText.CheckedNeverFails(w.value, allowed, pairs);
    }
  }
}
