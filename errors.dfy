/** The ways a resolution run rejects. Every one of them rejects the whole `analyzeFullImage`
    promise: `Promise.all` does not isolate one detection's failure from the others. */
module Errors {

  datatype Error =
    | ExtractionExhausted       // analyzeImageWithGemini threw after maxRetries failed attempts
    | ExtractionUndefined       // analyzeImageWithGemini returned undefined (maxRetries <= 0)
    | ProductMapNull            // the extraction reply parsed to null: Object.entries(null) throws
    | ProductEntryNull          // an entry of the extraction reply is null: reading its Korean name throws
    | SimilarityBadArguments    // findBestMatch was given a non-string name or an empty list of catalog names
    | RefinerCallFailed         // the refinement request itself rejected
    | RefinerReplyNotJson       // JSON.parse threw on the refinement reply (no retry)
    | RefinerReplyNotSearchable // the parsed refinement reply has no `includes` method
    | VerifierCallFailed        // an image download or a verification request rejected
}
