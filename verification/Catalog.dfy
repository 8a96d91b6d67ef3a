/** Why a catalog resolution could not be completed. */
module Catalog {
  datatype Reason =
    | NetworkUnavailable
    | DownloadFailed
    | HashMismatch
    | CatalogUnavailable
    | NoCompatibleVersion
    | Cancelled
    | CatalogSignatureInvalid
    | CatalogIdentityMismatch
    | CatalogIndexStale
    | CatalogIntegrityFailure
}
