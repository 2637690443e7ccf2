/**
 * app.py: how the front end turns the classifier's output into what it shows. The
 * prediction is the network's estimate that the picture shows a dinosaur; above 0.5
 * the verdict is "dinosaur", otherwise "not a dinosaur". The confidence in percent
 * picks one of four messages per verdict, sets the progress bar and, for a dinosaur,
 * the list of traits. The prediction is an exact real here.
 */
module Verdict {

  const DinoExtreme := "🦕 EXTREMELY DINOSAUR! You're practically a T-Rex!"
  const DinoVery := "🦖 Very dinosaur-like! Strong prehistoric vibes detected!"
  const DinoModerate := "🦕 Moderately dinosaur! You've got that reptilian charm!"
  const DinoSlight := "🦖 Slightly dinosaur! Maybe a distant ancestor?"

  const HumanDefinite := "👤 Definitely human! Not a scale in sight!"
  const HumanVery := "🧑 Very human! Sorry, no prehistoric DNA detected."
  const HumanProbable := "👨 Probably human. But there might be a little dino in you!"
  const HumanClose := "🤔 Hmm, this is close! Are you sure you're not hiding scales?"

  /** `get_dinosaur_message`: the first band that matches, from the top; a confidence on a
      band's lower boundary belongs to the band below. */
  function DinosaurMessage(confidence: real): (m: string)
    ensures m == DinoExtreme <==> confidence > 90.0
    ensures m == DinoVery <==> 75.0 < confidence <= 90.0
    ensures m == DinoModerate <==> 60.0 < confidence <= 75.0
    ensures m == DinoSlight <==> confidence <= 60.0
  {
    if confidence > 90.0 then DinoExtreme
    else if confidence > 75.0 then DinoVery
    else if confidence > 60.0 then DinoModerate
    else DinoSlight
  }

  /** `get_not_dinosaur_message`, with the same four bands. */
  function NotDinosaurMessage(confidence: real): (m: string)
    ensures m == HumanDefinite <==> confidence > 90.0
    ensures m == HumanVery <==> 75.0 < confidence <= 90.0
    ensures m == HumanProbable <==> 60.0 < confidence <= 75.0
    ensures m == HumanClose <==> confidence <= 60.0
  {
    if confidence > 90.0 then HumanDefinite
    else if confidence > 75.0 then HumanVery
    else if confidence > 60.0 then HumanProbable
    else HumanClose
  }

  /** The three tiers of dinosaur traits, highest first. */
  const HighTraits := ["Scales detected", "Prehistoric energy", "Sharp teeth potential"]
  const MidTraits := ["Reptilian features", "Ancient wisdom", "Tail-like appendages (maybe)"]
  const LowTraits := ["Roaring capability", "Love of Jurassic period", "Tiny arms energy"]
  const AllTraits := HighTraits + MidTraits + LowTraits

  /** The three fixed lines shown for a picture that is not a dinosaur. */
  const HumanTraits := ["No dino-like scales detected", "Possibly human or object",
                        "Definitely from the modern era (not Jurassic!)"]

  /** How many traits a confidence earns: each tier it clears adds three. */
  function TraitCount(confidence: real): (n: nat)
    ensures n == 9 <==> confidence > 80.0
    ensures n == 6 <==> 60.0 < confidence <= 80.0
    ensures n == 3 <==> 40.0 < confidence <= 60.0
    ensures n == 0 <==> confidence <= 40.0
  {
    (if confidence > 80.0 then 3 else 0)
    + (if confidence > 60.0 then 3 else 0)
    + (if confidence > 40.0 then 3 else 0)
  }

  /** A higher confidence never earns fewer traits. */
  lemma TraitCountMonotonic(c1: real, c2: real)
    requires c1 <= c2
    ensures TraitCount(c1) <= TraitCount(c2)
  {
  }

  /** `traits = []` followed by the three guarded `traits.extend(...)` calls: the traits
      shown are the bottom `TraitCount(confidence)` of the full list, high tier first. */
  method DinosaurTraits(confidence: real) returns (traits: seq<string>)
    ensures traits == AllTraits[9 - TraitCount(confidence)..]
  {
    traits := [];
    if confidence > 80.0 {
      traits := traits + HighTraits;
    }
    if confidence > 60.0 {
      traits := traits + MidTraits;
    }
    if confidence > 40.0 {
      traits := traits + LowTraits;
    }
  }

  /** What `main` shows for one prediction. */
  datatype Report = Report(dinosaur: bool, confidence: real, message: string, progress: real,
                           traits: seq<string>)

  /** The branch of `main` after `model.predict`: the verdict, the confidence in percent,
      the message, the progress bar value and the traits. */
  method Analyze(prediction: real) returns (r: Report)
    ensures r.dinosaur <==> prediction > 0.5
    ensures r.confidence == if r.dinosaur then prediction * 100.0 else (1.0 - prediction) * 100.0
    ensures r.message == if r.dinosaur then DinosaurMessage(r.confidence) else NotDinosaurMessage(r.confidence)
    ensures r.progress * 100.0 == r.confidence
    ensures r.traits == if r.dinosaur then AllTraits[9 - TraitCount(r.confidence)..] else HumanTraits
    ensures 0.0 <= prediction <= 1.0 ==> 50.0 <= r.confidence <= 100.0
    ensures r.dinosaur ==> r.confidence > 50.0 && |r.traits| >= 3
  {
    if prediction > 0.5 {
      var confidence := prediction * 100.0;
      var message := DinosaurMessage(confidence);
      var traits := DinosaurTraits(confidence);
      r := Report(true, confidence, message, prediction, traits);
    } else {
      var confidence := (1.0 - prediction) * 100.0;
      var message := NotDinosaurMessage(confidence);
      r := Report(false, confidence, message, 1.0 - prediction, HumanTraits);
    }
  }
}
