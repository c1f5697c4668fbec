/** Option and Result, the failure-carrying values used throughout the model. */
module Wrappers {

  datatype Option<+T> = None | Some(value: T)

  datatype Result<+R, +E> = Success(value: R) | Failure(error: E)
}

/** The HTTP errors the backend raises (FastAPI's HTTPException). */
module Http {

  datatype HttpError = HttpError(status: int, detail: string)

  /** Raised by the upload endpoint for a content type it does not accept. */
  const UnsupportedMediaType := HttpError(400, "Please upload a JPEG or PNG image.")

  /** Raised by the upload endpoint when the bytes do not decode as an image. */
  const UnreadableImage := HttpError(400, "Could not read the image. Upload a valid JPEG or PNG.")

  /** Raised by inference when no weights file was loaded at startup. */
  const ModelNotLoaded := HttpError(503, "Model not loaded. Copy best.pt here and restart.")
}
