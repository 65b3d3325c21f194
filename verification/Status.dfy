/** The results of CryptoTypes.h that the modelled operations return. */
module Status {
  datatype CryptoStatus = Ok | BadParam | InternalError
}
